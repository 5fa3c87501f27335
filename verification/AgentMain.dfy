/**
The agent's main loop: bounded reads that frame the input into lines, one response for each line, and
the release of the device however the loop ends.
*/
module AgentMain {
  import opened Sequences
  import opened Json
  import opened AgentProtocol
  import opened SerialAgent

  // ----- Framing -----

  /** The length of the first line of s, with its newline when it has one. */
  function LineLength(s: seq<byte>): (n: nat)
    ensures n <= |s| && (s != [] ==> n > 0)
    ensures forall k :: 0 <= k < n - 1 ==> s[k] != NEWLINE
  {
    var i := IndexOf(s, NEWLINE);
    if i < |s| then i + 1 else |s|
  }

  /** The specification of framing: cut after every newline; the last line may lack one. */
  function LogicalLines(input: seq<byte>): (lines: seq<seq<byte>>) {
    if input == [] then [] else [input[..LineLength(input)]] + LogicalLines(input[LineLength(input)..])
  }

  /** Framing loses and invents no byte. */
  lemma {:induction false} FramingIsLossless(input: seq<byte>)
    ensures Flatten(LogicalLines(input)) == input
  {
    if input != [] {
      FramingIsLossless(input[LineLength(input)..]);
      assert input == input[..LineLength(input)] + input[LineLength(input)..];
    }
  }

  /** Every line is non-empty, and only the last may lack its newline, which stands at its end. */
  lemma {:induction false} LinesEndAtNewlines(input: seq<byte>, i: nat)
    requires i < |LogicalLines(input)|
    ensures var line := LogicalLines(input)[i];
      && line != []
      && (i + 1 < |LogicalLines(input)| ==> line[|line| - 1] == NEWLINE)
      && NEWLINE !in line[..|line| - 1]
  {
    var n := LineLength(input);
    var rest := input[n..];
    if i > 0 {
      LinesEndAtNewlines(rest, i - 1);
    } else if rest != [] {
      assert input[n - 1] == NEWLINE;
    }
  }

  /** A prefix without a newline belongs to the first line. */
  lemma LineLengthSkip(s: seq<byte>, k: nat)
    requires k <= |s| && NEWLINE !in s[..k]
    ensures LineLength(s) == k + LineLength(s[k..])
  {
    var i := IndexOf(s[k..], NEWLINE);
    if i < |s| - k {
      assert s[k + i] == NEWLINE;
      forall j | 0 <= j < k + i ensures s[j] != NEWLINE {
        if j < k {
          assert s[j] == s[..k][j];
        } else {
          assert s[j] == s[k..][j - k];
        }
      }
      IndexOfIs(s, NEWLINE, k + i);
    } else {
      forall j | 0 <= j < |s| ensures s[j] != NEWLINE {
        if j < k {
          assert s[j] == s[..k][j];
        } else {
          assert s[j] == s[k..][j - k];
        }
      }
      IndexOfAbsent(s, NEWLINE);
    }
  }

  /** readline(limit): the rest of the line, cut at the limit; empty at the end of the input only. */
  class InputStream {
    var unread: seq<byte>

    constructor (input: seq<byte>)
      ensures unread == input
    {
      unread := input;
    }

    method ReadLine(limit: nat) returns (chunk: seq<byte>)
      modifies this
      ensures var n := LineLength(old(unread));
        chunk == old(unread)[..if n < limit then n else limit]
      ensures unread == old(unread)[|chunk|..]
    {
      var n := LineLength(unread);
      if n > limit {
        n := limit;
      }
      chunk := unread[..n];
      unread := unread[n..];
    }
  }

  /** Skip what remains of a line whose first chunk was too long. */
  method DiscardLineRemainder(stream: InputStream, firstChunk: seq<byte>)
    requires firstChunk != [] && NEWLINE !in firstChunk[..|firstChunk| - 1]
    modifies stream
    ensures stream.unread == (
      if firstChunk[|firstChunk| - 1] == NEWLINE then old(stream.unread)
      else old(stream.unread)[LineLength(old(stream.unread))..])
  {
    if firstChunk[|firstChunk| - 1] == NEWLINE {
      return;
    }
    ghost var start := stream.unread;
    ghost var skipped: nat := 0;
    while true
      invariant skipped <= |start| && stream.unread == start[skipped..]
      invariant NEWLINE !in start[..skipped]
      decreases |stream.unread|
    {
      LineLengthSkip(start, skipped);
      var chunk := stream.ReadLine(MAX_JSON_LINE_BYTES + 1);
      if chunk == [] {
        return;
      }
      assert chunk == start[skipped..skipped + |chunk|];
      if chunk[|chunk| - 1] == NEWLINE {
        return;
      }
      assert start[..skipped + |chunk|] == start[..skipped] + chunk;
      skipped := skipped + |chunk|;
    }
  }

  // ----- Serving -----

  /** One line with what handling it did; before and after tell whether a device is open. */
  datatype Exchange =
    Exchange(line: seq<byte>, before: bool, outcome: Outcome, effect: Effect, after: bool)
  {
    function Response(): Response
      requires !outcome.Crashed?
    {
      if outcome.Reply? then outcome.response else Failure(outcome.error)
    }

    /** The main loop goes on after this line. */
    predicate Continues() { outcome.Failed? || (outcome.Reply? && !outcome.stop) }
  }

  /** The outcome answers this very line: too long, undecodable, or handled as a request. */
  predicate Answers(codec: Codec, x: Exchange) {
    if |x.line| > MAX_JSON_LINE_BYTES then
      x.outcome == Failed(TOO_LARGE) && x.effect == NO_EFFECT && x.after == x.before
    else
      match DecodeRequest(codec, x.line)
      case Err(error) => x.outcome == Failed(error) && x.effect == NO_EFFECT && x.after == x.before
      case Crash => x.outcome == Crashed && x.effect == NO_EFFECT && x.after == x.before
      case Ok(request) => Handles(request, x.before, x.outcome, x.effect, x.after)
  }

  /** A history from a fresh agent: every line answered, and nothing after a stop or a crash. */
  ghost predicate Session(codec: Codec, history: seq<Exchange>) {
    && (forall i :: 0 <= i < |history| ==> Answers(codec, history[i]))
    && (forall i :: 0 <= i < |history| - 1 ==>
          history[i].Continues() && history[i].after == history[i + 1].before)
    && (history != [] ==> !history[0].before)
  }

  predicate ConnectedAfter(history: seq<Exchange>) {
    history != [] && history[|history| - 1].after
  }

  predicate Running(history: seq<Exchange>) {
    history == [] || history[|history| - 1].Continues()
  }

  function Lines(history: seq<Exchange>): seq<seq<byte>> {
    seq(|history|, i requires 0 <= i < |history| => history[i].line)
  }

  /** What the agent writes: one encoded response for each line that did not crash it. */
  function Output(codec: Codec, history: seq<Exchange>): seq<byte> {
    if history == [] then []
    else
      var last := history[|history| - 1];
      Output(codec, history[..|history| - 1])
      + if last.outcome.Crashed? then [] else EncodeResponse(codec, last.Response())
  }

  /** What each device opened in this history took and gave, in the order of the opens. */
  function DevicesOf(history: seq<Exchange>): seq<Device> {
    if history == [] then []
    else
      var last := history[|history| - 1];
      DevicesAfter(DevicesOf(history[..|history| - 1]), last.before, last.effect, last.after)
  }

  lemma DevicesSnoc(history: seq<Exchange>, x: Exchange)
    ensures DevicesOf(history + [x]) == DevicesAfter(DevicesOf(history), x.before, x.effect, x.after)
  {
    assert (history + [x])[..|history|] == history;
  }

  lemma NoDevices()
    ensures DevicesOf([]) == []
  {
  }

  /** Every call that was made for these lines, in order. */
  function CallsOf(history: seq<Exchange>): seq<HostCall> {
    if history == [] then [] else CallsOf(history[..|history| - 1]) + history[|history| - 1].effect.calls
  }

  lemma CallsSnoc(history: seq<Exchange>, x: Exchange)
    ensures CallsOf(history + [x]) == CallsOf(history) + x.effect.calls
  {
    assert (history + [x])[..|history|] == history;
  }

  lemma NoCalls()
    ensures CallsOf([]) == []
  {
  }

  /** Answer one line, longer than the limit or not. */
  method ServeLine(codec: Codec, agent: SerialAgent, line: seq<byte>)
    returns (outcome: Outcome, ghost x: Exchange)
    requires agent.Valid()
    modifies agent, agent.created, agent.host
    ensures agent.Valid() && agent.Affected(x.effect)
    ensures agent.Devices() == DevicesAfter(old(agent.Devices()), x.before, x.effect, x.after)
    ensures agent.host.calls == old(agent.host.calls) + x.effect.calls
    ensures fresh(set c | c in agent.created && c !in old(agent.created))
    ensures x == Exchange(line, old(agent.Connected()), outcome, x.effect, agent.Connected())
    ensures Answers(codec, x)
  {
    assert agent.host.calls + [] == agent.host.calls;
    if |line| > MAX_JSON_LINE_BYTES {
      outcome := Failed(TOO_LARGE);
      x := Exchange(line, agent.Connected(), outcome, NO_EFFECT, agent.Connected());
      return;
    }
    var request := DecodeRequest(codec, line);
    match request
    case Err(error) =>
      outcome := Failed(error);
      x := Exchange(line, agent.Connected(), outcome, NO_EFFECT, agent.Connected());
    case Crash =>
      outcome := Crashed;
      x := Exchange(line, agent.Connected(), outcome, NO_EFFECT, agent.Connected());
    case Ok(fields) =>
      ghost var before := agent.Connected();
      ghost var effect;
      outcome, effect := agent.Handle(fields);
      x := Exchange(line, before, outcome, effect, agent.Connected());
  }

  lemma SessionGrows(codec: Codec, history: seq<Exchange>, x: Exchange)
    requires Session(codec, history) && Running(history)
    requires Answers(codec, x) && x.before == ConnectedAfter(history)
    ensures Session(codec, history + [x]) && ConnectedAfter(history + [x]) == x.after
    ensures Lines(history + [x]) == Lines(history) + [x.line]
    ensures Output(codec, history + [x]) == Output(codec, history)
      + if x.outcome.Crashed? then [] else EncodeResponse(codec, x.Response())
  {
    hide Answers, EncodeResponse;
    var longer := history + [x];
    assert longer[..|longer| - 1] == history;
    forall i | 0 <= i < |longer| - 1
      ensures longer[i].Continues() && longer[i].after == longer[i + 1].before
    {
    }
  }

  lemma LinesSnoc(history: seq<Exchange>, x: Exchange)
    ensures Lines(history + [x]) == Lines(history) + [x.line]
  {
  }

  lemma LinesAdvance(lines: seq<seq<byte>>, history: seq<Exchange>, x: Exchange, unread: seq<byte>)
    requires unread != [] && x.line == unread[..LineLength(unread)]
    requires lines == Lines(history) + LogicalLines(unread)
    ensures lines == Lines(history + [x]) + LogicalLines(unread[LineLength(unread)..])
  {
    hide *;
    LinesSnoc(history, x);
    FirstCut(unread, LineLength(unread));
    var rest := LogicalLines(unread[LineLength(unread)..]);
    assert Lines(history) + ([x.line] + rest) == Lines(history) + [x.line] + rest;
  }

  lemma OverlongAnswered(codec: Codec, x: Exchange)
    requires |x.line| > MAX_JSON_LINE_BYTES && x.outcome == Failed(TOO_LARGE)
    requires x.effect == NO_EFFECT && x.before == x.after
    ensures Answers(codec, x)
    ensures forall devices :: DevicesAfter(devices, x.before, x.effect, x.after) == devices
  {
  }

  /** Read one bounded line, discard what exceeds the limit, and answer it; None at the end. */
  method ServeNext(codec: Codec, agent: SerialAgent, stream: InputStream)
    returns (outcome: Option<Outcome>, ghost x: Option<Exchange>)
    requires agent.Valid()
    modifies agent, agent.created, agent.host, stream
    ensures agent.Valid() && fresh(set c | c in agent.created && c !in old(agent.created))
    ensures outcome.None? <==> old(stream.unread) == []
    ensures outcome.None? ==> stream.unread == [] && agent.Connected() == old(agent.Connected())
    ensures outcome.None? ==> agent.Devices() == old(agent.Devices()) && agent.host.calls == old(agent.host.calls)
    ensures outcome.Some? ==>
      && x.Some? && Answers(codec, x.value)
      && x.value.line == old(stream.unread)[..LineLength(old(stream.unread))]
      && x.value.before == old(agent.Connected()) && x.value.after == agent.Connected()
      && x.value.outcome == outcome.value
      && agent.Devices() == DevicesAfter(old(agent.Devices()), x.value.before, x.value.effect, x.value.after)
      && agent.host.calls == old(agent.host.calls) + x.value.effect.calls
      && stream.unread == old(stream.unread)[LineLength(old(stream.unread))..]
  {
    hide Answers, SerialAgent.Valid, SerialAgent.Affected, SerialAgent.Devices, SerialAgent.Connected, LineLength;
    var line, whole := NextLine(stream);
    if line == [] {
      return None, None;
    }
    var result;
    ghost var exchange;
    if |line| > MAX_JSON_LINE_BYTES {
      result := Failed(TOO_LARGE);
      exchange := Exchange(whole, agent.Connected(), result, NO_EFFECT, agent.Connected());
      OverlongAnswered(codec, exchange);
      assert agent.host.calls + [] == agent.host.calls;
    } else {
      result, exchange := ServeLine(codec, agent, line);
    }
    return Some(result), Some(exchange);
  }

  /** The next line, or as much of it as shows that it is too long; either way it is read to its end. */
  method NextLine(stream: InputStream) returns (line: seq<byte>, ghost whole: seq<byte>)
    modifies stream
    ensures line == [] <==> old(stream.unread) == []
    ensures whole == old(stream.unread)[..LineLength(old(stream.unread))]
    ensures stream.unread == old(stream.unread)[|whole|..]
    ensures if |line| > MAX_JSON_LINE_BYTES then |whole| > MAX_JSON_LINE_BYTES else line == whole
  {
    hide LineLength;
    ghost var unread := stream.unread;
    whole := unread[..LineLength(unread)];
    line := stream.ReadLine(MAX_JSON_LINE_BYTES + 1);
    if |line| > MAX_JSON_LINE_BYTES {
      assert line == unread[..|line|] && |line| <= LineLength(unread);
      Remainder(unread, line);
      DiscardLineRemainder(stream, line);
    }
  }

  /** Halfway: these lines are answered and their responses written, the rest is unread. */
  ghost predicate Progress(
    codec: Codec, input: seq<byte>, unread: seq<byte>, output: seq<byte>, history: seq<Exchange>
  ) {
    && Session(codec, history)
    && LogicalLines(input) == Lines(history) + LogicalLines(unread)
    && output == Output(codec, history)
  }

  lemma ProgressGrows(
    codec: Codec, input: seq<byte>, unread: seq<byte>, output: seq<byte>, history: seq<Exchange>, x: Exchange
  )
    requires Progress(codec, input, unread, output, history) && Running(history)
    requires unread != [] && x.line == unread[..LineLength(unread)]
    requires Answers(codec, x) && x.before == ConnectedAfter(history)
    ensures Progress(codec, input, unread[LineLength(unread)..],
      output + if x.outcome.Crashed? then [] else EncodeResponse(codec, x.Response()), history + [x])
    ensures ConnectedAfter(history + [x]) == x.after && Running(history + [x]) == x.Continues()
  {
    hide Answers, EncodeResponse, Exchange.Response;
    SessionGrows(codec, history, x);
    LinesAdvance(LogicalLines(input), history, x, unread);
  }

  /** The input was served by this history: nothing skipped, nothing after the end, all answers written. */
  ghost predicate ServedBy(codec: Codec, input: seq<byte>, output: seq<byte>, history: seq<Exchange>) {
    && Session(codec, history)
    && Lines(history) <= LogicalLines(input)
    && (Running(history) ==> Lines(history) == LogicalLines(input))
    && output == Output(codec, history)
  }

  /** The last line ended the process with an exception that is not an AgentError. */
  predicate Crashes(history: seq<Exchange>) {
    history != [] && history[|history| - 1].outcome.Crashed?
  }

  /** The call that closes a device which is still open when the loop is left. */
  predicate FinalCalls(history: seq<Exchange>, calls: seq<HostCall>) {
    if ConnectedAfter(history) then |calls| == 1 && calls[0].ClosedDevice? else calls == []
  }

  /** An exception leaves the process: that of the last line, or that of the final close. */
  predicate EndsRaising(history: seq<Exchange>, calls: seq<HostCall>) {
    Crashes(history) || (calls != [] && EndOfCall(calls[0]) != Fine)
  }

  lemma ProgressStarts(codec: Codec, input: seq<byte>)
    ensures Progress(codec, input, input, [], []) && Running([]) && !ConnectedAfter([])
  {
  }

  /** How one pass of the loop ends: the input is over, or the loop goes on, or it is left. */
  datatype Pass = AtEnd | Again | Stopping | Raising

  /** One pass: the next line is served and its response, if it has one, is written. */
  method OnePass(codec: Codec, agent: SerialAgent, stream: InputStream)
    returns (pass: Pass, written: seq<byte>, ghost x: Option<Exchange>)
    requires agent.Valid()
    modifies agent, agent.created, agent.host, stream
    ensures agent.Valid() && fresh(set c | c in agent.created && c !in old(agent.created))
    ensures pass.AtEnd? <==> old(stream.unread) == []
    ensures pass.AtEnd? ==> stream.unread == [] && agent.Connected() == old(agent.Connected())
    ensures pass.AtEnd? ==> agent.Devices() == old(agent.Devices()) && agent.host.calls == old(agent.host.calls)
    ensures !pass.AtEnd? ==>
      && x.Some? && Answers(codec, x.value)
      && x.value.line == old(stream.unread)[..LineLength(old(stream.unread))]
      && x.value.before == old(agent.Connected()) && x.value.after == agent.Connected()
      && agent.Devices() == DevicesAfter(old(agent.Devices()), x.value.before, x.value.effect, x.value.after)
      && agent.host.calls == old(agent.host.calls) + x.value.effect.calls
      && stream.unread == old(stream.unread)[LineLength(old(stream.unread))..]
      && (pass.Again? <==> x.value.Continues()) && (pass.Raising? <==> x.value.outcome.Crashed?)
      && written == if pass.Raising? then [] else EncodeResponse(codec, x.value.Response())
  {
    hide Answers, SerialAgent.Valid, SerialAgent.Devices, SerialAgent.Connected, DevicesAfter, LineLength;
    hide EncodeResponse, Failure;
    var outcome;
    outcome, x := ServeNext(codec, agent, stream);
    if outcome.None? {
      return AtEnd, [], x;
    }
    match outcome.value
    case Crashed => return Raising, [], x;
    case Failed(error) => return Again, EncodeResponse(codec, Failure(error)), x;
    case Reply(response, stop) =>
      return if stop then Stopping else Again, EncodeResponse(codec, response), x;
  }

  lemma ProgressServes(codec: Codec, input: seq<byte>, unread: seq<byte>, output: seq<byte>, history: seq<Exchange>)
    requires Progress(codec, input, unread, output, history)
    requires Running(history) ==> unread == []
    ensures ServedBy(codec, input, output, history)
  {
    hide Answers;
  }

  /**
  Serve requests until a close, the end of the input or an exception. Exactly one response is written
  for each logical line, in order, up to and including the first line that asks to stop; an
  overlong line costs one response and no byte of the next line; the calls to the host are those of the
  lines, in order, and at most one final close; and however the loop ends, there is one connection for
  each open in the history, with the bytes that the history says, and each of them has been closed
  exactly once.
  */
  method Run(codec: Codec, host: Host, input: seq<byte>)
    returns (output: seq<byte>, raised: bool, ghost created: seq<SerialConnection>)
    modifies host
    ensures exists history, final ::
      && ServedBy(codec, input, output, history)
      && host.calls == old(host.calls) + CallsOf(history) + final && FinalCalls(history, final)
      && RecordOf(created) == DevicesOf(history)
      && (raised <==> EndsRaising(history, final))
    ensures fresh(set c | c in created)
    ensures forall i, j :: 0 <= i < j < |created| ==> created[i] != created[j]
    ensures forall c :: c in created ==> c.closeCalls == 1
  {
    hide *;
    ProgressStarts(codec, input);
    NoDevices();
    NoCalls();
    ghost var start := host.calls;
    assert start + [] == start;
    var agent := new SerialAgent(host);
    var stream := new InputStream(input);
    ghost var history: seq<Exchange> := [];
    output, raised := [], false;
    while true
      invariant agent.Valid() && fresh(agent) && fresh(agent.created) && fresh(stream)
      invariant Running(history) && ConnectedAfter(history) == agent.Connected()
      invariant agent.host == host && host.calls == start + CallsOf(history)
      invariant agent.Devices() == DevicesOf(history)
      invariant !raised && Progress(codec, input, stream.unread, output, history)
      decreases |stream.unread|
    {
      ghost var unread := stream.unread;
      var pass, written, x := OnePass(codec, agent, stream);
      if pass.AtEnd? {
        break;
      }
      ProgressGrows(codec, input, unread, output, history, x.value);
      DevicesSnoc(history, x.value);
      CallsSnoc(history, x.value);
      assert start + CallsOf(history) + x.value.effect.calls == start + (CallsOf(history) + x.value.effect.calls);
      history := history + [x.value];
      CrashesIs(history);
      output := output + written;
      raised := pass.Raising?;
      if !pass.Again? {
        break;
      }
    }
    var closed, final := CloseAtEnd(agent);
    raised := raised || closed;
    created := agent.created;
    ProgressServes(codec, input, stream.unread, output, history);
    DevicesAre(agent);
    CrashesIs(history);
    EndsRaisingWhen(history, final);
    FinalCallsAre(history, final);
    assert ServedBy(codec, input, output, history);
  }

  lemma DevicesAre(agent: SerialAgent)
    ensures agent.Devices() == RecordOf(agent.created)
  {
  }

  lemma FinalCallsAre(history: seq<Exchange>, calls: seq<HostCall>)
    ensures FinalCalls(history, calls) <==>
      if ConnectedAfter(history) then |calls| == 1 && calls[0].ClosedDevice? else calls == []
  {
  }

  lemma EndsRaisingWhen(history: seq<Exchange>, calls: seq<HostCall>)
    ensures EndsRaising(history, calls) <==> Crashes(history) || (calls != [] && EndOfCall(calls[0]) != Fine)
  {
  }

  lemma CrashesIs(history: seq<Exchange>)
    ensures Crashes(history) <==> history != [] && history[|history| - 1].outcome.Crashed?
    ensures Running(history) ==> !Crashes(history)
  {
  }

  /** The close after the loop; it raises when a device was still open whose close raised. */
  method CloseAtEnd(agent: SerialAgent) returns (raised: bool, ghost calls: seq<HostCall>)
    requires agent.Valid()
    modifies agent, agent.created, agent.host
    ensures agent.Valid() && agent.created == old(agent.created) && agent.Devices() == old(agent.Devices())
    ensures agent.host.calls == old(agent.host.calls) + calls
    ensures if old(agent.Connected()) then |calls| == 1 && calls[0].ClosedDevice? else calls == []
    ensures raised <==> calls != [] && EndOfCall(calls[0]) != Fine
    ensures forall i, j :: 0 <= i < j < |agent.created| ==> agent.created[i] != agent.created[j]
    ensures forall c :: c in agent.created ==> c.closeCalls == 1
  {
    var closed, e := agent.Close();
    raised, calls := !closed.Done?, e.calls;
  }

  // ----- What a reader of the output sees -----

  function Responses(codec: Codec, history: seq<Exchange>): seq<seq<byte>> {
    if history == [] then []
    else
      var last := history[|history| - 1];
      Responses(codec, history[..|history| - 1])
      + if last.outcome.Crashed? then [] else [EncodeResponse(codec, last.Response())]
  }

  lemma FirstCut(s: seq<byte>, n: nat)
    requires s != [] && n == LineLength(s)
    ensures LogicalLines(s) == [s[..n]] + LogicalLines(s[n..])
  {
  }

  lemma NoLines()
    ensures LogicalLines([]) == []
  {
  }

  lemma SingleLine(line: seq<byte>)
    requires line != [] && line[|line| - 1] == NEWLINE && NEWLINE !in line[..|line| - 1]
    ensures LogicalLines(line) == [line]
  {
    IndexOfIs(line, NEWLINE, |line| - 1);
    FirstCut(line, |line|);
    assert line[..|line|] == line && line[|line|..] == [];
  }

  lemma {:induction false} LogicalLinesSnoc(s: seq<byte>, line: seq<byte>)
    requires s == [] || s[|s| - 1] == NEWLINE
    requires line != [] && line[|line| - 1] == NEWLINE && NEWLINE !in line[..|line| - 1]
    ensures LogicalLines(s + line) == LogicalLines(s) + [line]
  {
    hide *;
    if s == [] {
      assert s + line == line;
      SingleLine(line);
      NoLines();
    } else {
      var n := LineLength(s);
      var first, rest := s[..n], s[n..];
      FirstCut(s, n);
      FirstLineStays(s, line);
      FirstCut(s + line, n);
      assert (s + line)[..n] == first;
      assert (s + line)[n..] == rest + line;
      LogicalLinesSnoc(rest, line);
      assert [first] + (LogicalLines(rest) + [line]) == [first] + LogicalLines(rest) + [line];
    }
  }

  lemma FirstLineStays(s: seq<byte>, more: seq<byte>)
    requires s != [] && s[|s| - 1] == NEWLINE
    ensures LineLength(s + more) == LineLength(s)
  {
    var n := LineLength(s);
    forall k | 0 <= k < n - 1 ensures (s + more)[k] != NEWLINE {
    }
    IndexOfIs(s + more, NEWLINE, n - 1);
  }

  /** Cutting the output at newlines, as the client does, gives back the responses one by one. */
  lemma {:induction false} OutputLines(codec: Codec, history: seq<Exchange>)
    requires Faithful(codec)
    ensures var output := Output(codec, history);
      && LogicalLines(output) == Responses(codec, history)
      && (output == [] || output[|output| - 1] == NEWLINE)
  {
    if history != [] {
      var last := history[|history| - 1];
      var earlier := history[..|history| - 1];
      OutputLines(codec, earlier);
      if !last.outcome.Crashed? {
        var text := codec.dumps(Obj(last.Response()));
        var line := EncodeResponse(codec, last.Response());
        assert line[..|line| - 1] == text;
        LogicalLinesSnoc(Output(codec, earlier), line);
      } else {
        assert Output(codec, history) == Output(codec, earlier);
        assert Responses(codec, history) == Responses(codec, earlier);
      }
    }
  }

  lemma {:induction false} ResponseCount(codec: Codec, history: seq<Exchange>)
    requires forall i :: 0 <= i < |history| ==> !history[i].outcome.Crashed?
    ensures |Responses(codec, history)| == |history|
  {
    if history != [] {
      ResponseCount(codec, history[..|history| - 1]);
    }
  }

  lemma {:induction false} ResponseAt(codec: Codec, history: seq<Exchange>, i: nat)
    requires forall k :: 0 <= k < |history| - 1 ==> !history[k].outcome.Crashed?
    requires i < |history| && !history[i].outcome.Crashed?
    ensures |Responses(codec, history)| == |history| - (if Crashes(history) then 1 else 0)
    ensures i < |Responses(codec, history)|
    ensures Responses(codec, history)[i] == EncodeResponse(codec, history[i].Response())
  {
    var earlier := history[..|history| - 1];
    ResponseCount(codec, earlier);
    if i < |history| - 1 {
      ResponseAt(codec, earlier, i);
    }
  }

  /**
  A reader of the output finds one response line for each line that was served, and the i-th answers
  the i-th line of the input. Only a line that crashed the agent, which is the last one served, has
  none; every line is served unless an earlier one stopped or crashed the agent.
  */
  lemma OneResponsePerLine(codec: Codec, input: seq<byte>, output: seq<byte>, history: seq<Exchange>)
    requires Faithful(codec) && ServedBy(codec, input, output, history)
    ensures |history| <= |LogicalLines(input)|
    ensures |history| == |LogicalLines(input)| || !history[|history| - 1].Continues()
    ensures |LogicalLines(output)| == |history| - (if Crashes(history) then 1 else 0)
    ensures forall i :: 0 <= i < |history| ==>
      LogicalLines(input)[i] == history[i].line && Answers(codec, history[i])
    ensures forall i :: 0 <= i < |LogicalLines(output)| ==>
      && !history[i].outcome.Crashed? && LogicalLines(output)[i] == EncodeResponse(codec, history[i].Response())
    ensures forall i :: 0 <= i < |history| - 1 ==> history[i].Continues()
  {
    hide Answers, EncodeResponse, Output, LogicalLines, Responses;
    OutputLines(codec, history);
    assert forall i :: 0 <= i < |history| ==> Lines(history)[i] == LogicalLines(input)[i];
    forall k | 0 <= k < |history| - 1
      ensures !history[k].outcome.Crashed?
    {
      assert history[k].Continues();
    }
    CountResponses(codec, history);
    forall i | 0 <= i < |history| && !history[i].outcome.Crashed?
      ensures i < |Responses(codec, history)|
      ensures Responses(codec, history)[i] == EncodeResponse(codec, history[i].Response())
    {
      ResponseAt(codec, history, i);
    }
  }

  lemma CountResponses(codec: Codec, history: seq<Exchange>)
    requires forall k :: 0 <= k < |history| - 1 ==> !history[k].outcome.Crashed?
    ensures |Responses(codec, history)| == |history| - (if Crashes(history) then 1 else 0)
  {
    if history != [] {
      ResponseCount(codec, history[..|history| - 1]);
    }
  }

  /** The line is within the limit and holds this request. */
  predicate Holds(codec: Codec, line: seq<byte>, request: Request) {
    |line| <= MAX_JSON_LINE_BYTES && DecodeRequest(codec, line) == Result.Ok(request)
  }

  /**
  What a crash can come from: reading the JSON text raised, or the timeout overflowed, or the device
  raised something unexpected during an action that was in order.
  */
  lemma CrashCauses(codec: Codec, x: Exchange)
    requires Answers(codec, x) && x.outcome.Crashed?
    ensures
      || (|x.line| <= MAX_JSON_LINE_BYTES && DecodeRequest(codec, x.line).Crash?)
      || (exists request :: Holds(codec, x.line, request) && OverflowsTimeout(request, x.before))
      || (exists request, action ::
            Holds(codec, x.line, request) && Asks(request, x.before, action) && !action.Hello?)
  {
    hide Validate, OverflowsTimeout, Asks;
    if DecodeRequest(codec, x.line).Ok? {
      var request := DecodeRequest(codec, x.line).value;
      assert Holds(codec, x.line, request);
      ValidateCrashes(request, x.before);
      if Validate(request, x.before).Ok? {
        ValidateAccepts(request, x.before, Validate(request, x.before).value);
      }
    }
  }

  /** The response is a structured error with this code. */
  ghost predicate FailsWith(x: Exchange, code: string) {
    && x.outcome.Failed? && x.effect == NO_EFFECT && x.after == x.before
    && exists message :: IsFailure(x.Response(), code, message)
  }

  /**
  How a line is answered that asks for no action: by its length, by what reading it as JSON gives, and by
  the checks of the request, each with its code and without touching a device.
  */
  lemma RejectedLine(codec: Codec, x: Exchange)
    requires Answers(codec, x)
    ensures |x.line| > MAX_JSON_LINE_BYTES ==> FailsWith(x, "request_too_large")
    ensures |x.line| <= MAX_JSON_LINE_BYTES ==>
      match codec.loads(x.line)
      case Malformed => FailsWith(x, "invalid_json")
      case Raises => x.outcome.Crashed? && x.effect == NO_EFFECT
      case Parsed(Obj(request)) =>
        (forall action :: !Asks(request, x.before, action)) && !OverflowsTimeout(request, x.before) ==>
          exists code :: RejectedAs(request, x.before, code) && FailsWith(x, code)
      case Parsed(_) => FailsWith(x, "invalid_request")
  {
    hide Validate, OverflowsTimeout, Asks, RejectedAs, FailsWith, Permits;
    FailedLine(x);
    match codec.loads(x.line)
    case Parsed(Obj(request)) =>
      if
        && |x.line| <= MAX_JSON_LINE_BYTES && (forall action :: !Asks(request, x.before, action))
        && !OverflowsTimeout(request, x.before)
      {
        var r := Validate(request, x.before);
        ValidateCrashes(request, x.before);
        if r.Ok? {
          ValidateAccepts(request, x.before, r.value);
          assert false;
        }
        RejectionCode(request, x.before);
      }
    case _ =>
  }

  lemma FailedLine(x: Exchange)
    ensures x.outcome.Failed? && x.effect == NO_EFFECT && x.after == x.before ==> FailsWith(x, x.outcome.error.code)
  {
    if x.outcome.Failed? {
      FailureIs(x.outcome.error);
      assert IsFailure(x.Response(), x.outcome.error.code, x.outcome.error.message);
    }
  }

  /**
  A served line whose timeout overflows is the last one: the process ends with an exception that is
  not an AgentError, there is no response to that line, and nothing behind it is served.
  */
  lemma OverflowEndsService(codec: Codec, input: seq<byte>, output: seq<byte>, history: seq<Exchange>,
                            final: seq<HostCall>, i: nat, request: Request)
    requires Faithful(codec) && ServedBy(codec, input, output, history) && i < |history|
    requires Holds(codec, history[i].line, request) && OverflowsTimeout(request, history[i].before)
    ensures i == |history| - 1 && EndsRaising(history, final)
    ensures |LogicalLines(output)| == i
    ensures history[i].effect == NO_EFFECT && history[i].after
  {
    hide Validate, OverflowsTimeout, LogicalLines, Output, EncodeResponse;
    ValidateCrashes(request, history[i].before);
    assert Answers(codec, history[i]);
    StillOpen(request, history[i].before);
    assert !history[i].Continues();
    OneResponsePerLine(codec, input, output, history);
  }

  lemma StillOpen(request: Request, connected: bool)
    requires OverflowsTimeout(request, connected)
    ensures connected
  {
  }

  /** Where the stream stands once an overlong line has been read in chunks. */
  lemma Remainder(unread: seq<byte>, chunk: seq<byte>)
    requires chunk != [] && |chunk| <= LineLength(unread) && chunk == unread[..|chunk|]
    ensures NEWLINE !in chunk[..|chunk| - 1]
    ensures chunk[|chunk| - 1] == NEWLINE ==> |chunk| == LineLength(unread)
    ensures chunk[|chunk| - 1] != NEWLINE ==>
      unread[|chunk|..][LineLength(unread[|chunk|..])..] == unread[LineLength(unread)..]
  {
    if chunk[|chunk| - 1] != NEWLINE {
      assert NEWLINE !in chunk by {
        forall k | 0 <= k < |chunk| ensures chunk[k] != NEWLINE {
          if k < |chunk| - 1 {
            assert chunk[k] == unread[k];
          }
        }
      }
      LineLengthSkip(unread, |chunk|);
    }
  }
}
