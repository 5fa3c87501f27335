/**
A console session over the agent's channel: the command line goes through the client, the agent and its
device, and the console's answer comes back by polling. Bytes are characters here, as in module Console.
*/
module AgentConsole {
  import opened Sequences
  import opened Json
  import opened SerialAgent
  import opened SerialLink
  import opened SerialChannel
  import opened ShellQuoting
  import AgentProtocol
  import Console
  import Shell

  const CHUNK_SIZE := 65_535

  /** The characters that these bytes stand for. */
  function Text(bytes: seq<byte>): (r: string)
    ensures |r| == |bytes|
  {
    seq(|bytes|, i requires 0 <= i < |bytes| => bytes[i] as char)
  }

  lemma TextConcat(a: seq<byte>, b: seq<byte>)
    ensures Text(a + b) == Text(a) + Text(b)
  {
  }

  /** A call that fails gives the structured error of the agent or the reason for the failure. */
  datatype Failure = Refused(response: AgentProtocol.Response) | Failing(reason: Reason)

  /** What a call on the session gives: an execution of the command, or a failure of the transport. */
  datatype Ran = Ran(execution: Console.Execution) | TransportFailed(failure: Failure)

  datatype Reading = Read(response: Console.Response) | ReadFailed(failure: Failure)

  function FailureOf<T>(r: Answer<T>): Failure
    requires !r.Got?
  {
    if r.Raised? then Failing(r.reason) else Refused(r.response)
  }

  /**
  The cause of this failure is there, since the channel had been polled and had refused bytes so often:
  the agent's newest response is the refusal, the agent is known to be gone, bytes were refused, too many
  arrived, the whole time of a request was spent polling, or the device took fewer bytes than these.
  */
  ghost predicate Justified(
    client: SerialAgentChannel, failure: Failure, polled: nat, refused: nat, polls: nat, size: nat
  )
    reads client, client.channel
  {
    match failure
    case Refused(response) =>
      && client.channel.history != [] && !client.Last().outcome.Crashed?
      && client.Last().Response() == response && !Accepted(response)
    case Failing(AgentExited) => client.channel.closed || client.channel.exited
    case Failing(SendFailed) => client.channel.refused > refused
    case Failing(TooLarge) => |client.responseBuffer| > MAX_RESPONSE_BYTES
    case Failing(TimedOut) => client.channel.polled >= polled + polls
    case Failing(PartialWrite) => client.channel.history != [] && |client.Last().effect.taken| < size
    case _ => false
  }

  lemma JustifiedSince(
    client: SerialAgentChannel, failure: Failure, polled: nat, refused: nat, polls: nat, size: nat,
    earlierPolled: nat, earlierRefused: nat, larger: nat
  )
    requires Justified(client, failure, polled, refused, polls, size)
    requires earlierPolled <= polled && earlierRefused <= refused && size <= larger
    ensures Justified(client, failure, earlierPolled, earlierRefused, polls, larger)
  {
    hide Accepted;
  }

  /**
  The bytes that the session has read are the oldest of those that were buffered and those that the
  devices gave since; the rest is buffered now.
  */
  ghost predicate HasRead(
    buffer: seq<byte>, before: seq<Device>, bytes: seq<byte>, now: seq<byte>, after: seq<Device>
  ) {
    && buffer <= bytes + now
    && TotalGiven(after) == TotalGiven(before) + (bytes + now)[|buffer|..]
    && NewestTook(after) == NewestTook(before)
  }

  /** The newest poll has left nothing behind, unless it was a full chunk. */
  predicate Drained(events: seq<Console.Event>, now: seq<byte>) {
    events == [] || now == []
    || (events[|events| - 1].Chunk? && |events[|events| - 1].data| == CHUNK_SIZE)
  }

  /**
  Poll the channel until the answer is complete, the agent is gone, or time is up. Every poll asks the
  channel once; the time is up only after all the passes, and the agent is gone only when it has exited.
  */
  method ReadAnswer(client: SerialAgentChannel, token: string, prompt: string, passes: nat, polls: nat)
    returns (r: Reading, ghost events: seq<Console.Event>, ghost bytes: seq<byte>)
    requires client.Valid() && client.InStep() && '\n' !in token
    modifies client, client.channel, client.channel.agent, client.channel.agent.created, client.channel.agent.host
    ensures client.Valid()
    ensures client.channel.polled >= old(client.channel.polled)
    ensures client.channel.refused >= old(client.channel.refused)
    ensures client.asks == old(client.asks) + |events| + if r.Read? then 0 else 1
    ensures r.Read? ==>
      && client.InStep() && Console.Received(events) == Text(bytes)
      && Console.ReadsTo(token, prompt, events, r.response, |events|)
      && HasRead(old(client.serialBuffer), old(client.channel.agent.Devices()), bytes, client.serialBuffer,
           client.channel.agent.Devices())
      && Drained(events, client.serialBuffer)
      && (r.response.TimedOut? ==> |events| == passes) && (r.response.Closed? ==> client.channel.exited)
    ensures r.ReadFailed? ==>
      Justified(client, r.failure, old(client.channel.polled), old(client.channel.refused), polls, 0)
  {
    hide *;
    events, bytes := [], [];
    Console.UndecidedStarts(token, prompt);
    AccountsAre(client);
    ReadNothing(client.serialBuffer, client.channel.agent.Devices());
    DrainedStarts(client.serialBuffer);
    ghost var buffer, before := client.serialBuffer, client.channel.agent.Devices();
    var data := "";
    NoText();
    var left := passes;
    while left > 0
      invariant client.Valid() && client.InStep()
      invariant fresh(set c | c in client.channel.agent.created && c !in old(client.channel.agent.created))
      invariant Console.Undecided(token, prompt, events)
      invariant data == Text(bytes) == Console.Received(events)
      invariant HasRead(buffer, before, bytes, client.serialBuffer, client.channel.agent.Devices())
      invariant Drained(events, client.serialBuffer)
      invariant 0 <= left <= passes && |events| == passes - left && client.asks == old(client.asks) + |events|
      invariant client.channel.polled >= old(client.channel.polled)
      invariant client.channel.refused >= old(client.channel.refused)
    {
      left := left - 1;
      ghost var polled, refused := client.channel.polled, client.channel.refused;
      var failure, chunk, exited := Pass(client, polls, buffer, before, bytes);
      if failure.Some? {
        JustifiedSince(client, failure.value, polled, refused, polls, 0, old(client.channel.polled),
          old(client.channel.refused), 0);
        return ReadFailed(failure.value), events, bytes;
      }
      ghost var earlier := events;
      assert bytes + [] == bytes && data + "" == data;
      if chunk != [] {
        events := events + [Console.Chunk(Text(chunk))];
        Later(events, earlier);
        DrainedBy(events, chunk, client.serialBuffer);
        TextConcat(bytes, chunk);
        data, bytes := data + Text(chunk), bytes + chunk;
        Console.FoundWhen(token, prompt, data);
        var found := Console.Found(token, prompt, data);
        if found.Some? {
          Console.NoneClosed(token, prompt, events, |earlier|);
          Console.ReturnedReads(token, prompt, events, |earlier|, found.value.0, found.value.1);
          return Read(Console.Returned(found.value.0, found.value.1)), events, bytes;
        }
      } else if exited {
        events := events + [Console.ChannelClosed];
        Later(events, earlier);
        DrainedBy(events, chunk, client.serialBuffer);
        Console.ClosedReads(token, prompt, events, |earlier|);
        return Read(Console.Closed), events, bytes;
      } else {
        events := events + [Console.Idle];
        Later(events, earlier);
        DrainedBy(events, chunk, client.serialBuffer);
        Console.NotComplete(token, prompt, earlier);
      }
      Console.UndecidedGrows(token, prompt, earlier, events);
    }
    Console.TimedOutReads(token, prompt, events);
    r := Read(Console.TimedOut(Console.Normalize(data)));
  }

  lemma DrainedStarts(now: seq<byte>)
    ensures Drained([], now)
  {
  }

  lemma DrainedBy(events: seq<Console.Event>, chunk: seq<byte>, now: seq<byte>)
    requires events != [] && (|chunk| == CHUNK_SIZE || now == [])
    requires chunk != [] ==> events[|events| - 1] == Console.Chunk(Text(chunk))
    ensures Drained(events, now)
  {
  }

  /** One pass: the next chunk when there is one, and otherwise whether the agent is gone. */
  method Pass(client: SerialAgentChannel, polls: nat, ghost buffer: seq<byte>, ghost before: seq<Device>,
              ghost bytes: seq<byte>)
    returns (failure: Option<Failure>, chunk: seq<byte>, exited: bool)
    requires client.Valid() && client.InStep()
    requires HasRead(buffer, before, bytes, client.serialBuffer, client.channel.agent.Devices())
    modifies client, client.channel, client.channel.agent, client.channel.agent.created, client.channel.agent.host
    ensures client.Valid()
    ensures fresh(set c | c in client.channel.agent.created && c !in old(client.channel.agent.created))
    ensures client.asks == old(client.asks) + 1
    ensures client.channel.polled >= old(client.channel.polled)
    ensures client.channel.refused >= old(client.channel.refused)
    ensures failure.None? ==>
      && client.InStep()
      && HasRead(buffer, before, bytes + chunk, client.serialBuffer, client.channel.agent.Devices())
      && (|chunk| == CHUNK_SIZE || client.serialBuffer == []) && (exited ==> client.channel.exited)
    ensures failure.Some? ==>
      Justified(client, failure.value, old(client.channel.polled), old(client.channel.refused), polls, 0)
  {
    hide Queued, TotalGiven, NewestTook, SerialAgentChannel.Valid, SerialAgentChannel.InStep, Quiet;
    hide SerialAgent.Devices;
    failure, chunk, exited := None, [], false;
    AccountsAre(client);
    ghost var start, devices := client.serialBuffer, client.channel.agent.Devices();
    ghost var kept := client.discarded + client.received;
    var ready := client.RecvReady(polls);
    if !ready.Got? {
      failure := Some(FailureOf(ready));
      return;
    }
    AccountsAre(client);
    ReadGrows(buffer, before, bytes, start, devices, client.serialBuffer, client.channel.agent.Devices(), kept);
    if ready.value {
      ghost var more := client.serialBuffer;
      chunk := client.Recv(CHUNK_SIZE);
      assert bytes + chunk + client.serialBuffer == bytes + more;
    } else {
      assert bytes + chunk == bytes;
      exited := Exited(client);
    }
  }

  method Exited(client: SerialAgentChannel) returns (exited: bool)
    requires client.Valid() && client.InStep()
    modifies client.channel, client.channel.agent, client.channel.agent.created, client.channel.agent.host
    ensures client.Valid() && client.InStep()
    ensures fresh(set c | c in client.channel.agent.created && c !in old(client.channel.agent.created))
    ensures client.channel.agent.Devices() == old(client.channel.agent.Devices())
    ensures client.channel.polled == old(client.channel.polled) && client.channel.refused == old(client.channel.refused)
    ensures exited ==> client.channel.exited
  {
    hide Queued, TotalGiven, NewestTook, SshChannel.Valid, Quiet, SerialAgent.Devices;
    AgentDevices(client.channel);
    ghost var start := client.Abs();
    exited := client.ExitStatus();
    AgentDevices(client.channel);
    StaysInStep(client.channel.codec, start, client.Abs());
  }

  lemma ReadNothing(buffer: seq<byte>, devices: seq<Device>)
    ensures HasRead(buffer, devices, [], buffer, devices)
  {
    assert [] + buffer == buffer && TotalGiven(devices) + [] == TotalGiven(devices);
  }

  /** More bytes from the devices end up behind those that were buffered. */
  lemma ReadGrows(
    buffer: seq<byte>, before: seq<Device>, bytes: seq<byte>, now: seq<byte>, devices: seq<Device>,
    later: seq<byte>, after: seq<Device>, kept: seq<byte>
  )
    requires HasRead(buffer, before, bytes, now, devices) && now <= later
    requires TotalGiven(devices) == kept + now && TotalGiven(after) == kept + later
    requires NewestTook(after) == NewestTook(devices)
    ensures HasRead(buffer, before, bytes, later, after)
  {
    hide TotalGiven, NewestTook;
    var more := later[|now|..];
    assert later == now + more;
    assert bytes + later == bytes + now + more;
    assert (bytes + now + more)[|buffer|..] == (bytes + now)[|buffer|..] + more;
    assert kept + (now + more) == kept + now + more;
  }

  lemma NoText()
    ensures Text([]) == ""
  {
  }

  lemma Later(events: seq<Console.Event>, earlier: seq<Console.Event>)
    requires |events| == |earlier| + 1 && events[..|earlier|] == earlier
    ensures Console.Received(events) == Console.Received(earlier)
      + if events[|earlier|].Chunk? then events[|earlier|].data else ""
    ensures events[..|earlier| + 1] == events
  {
    assert events[..|events|] == events;
    Console.ReceivedSnoc(events, |earlier|);
  }

  /**
  Execute one command over the agent's channel. In step, the device takes exactly the submitted line; and
  when what was buffered and what the devices give during the call is the beginning of what a terminal
  sends for the command, a result is the command's exit status and its output without leading newlines,
  and once all of it was read there is a result. Without a result the agent was gone or all the passes
  went by, and a failure of the transport has its cause.
  */
  method Execute(client: SerialAgentChannel, encode: string -> seq<byte>, command: UnixCommand, prompt: string,
                 tokenHex: string, statusHex: string, passes: nat, polls: nat)
    returns (r: Ran)
    requires client.Valid() && client.InStep()
    requires Console.IsHex(tokenHex) && Console.IsHex(statusHex)
    modifies client, client.channel, client.channel.agent, client.channel.agent.created, client.channel.agent.host
    ensures client.Valid() && (r.Ran? ==> client.InStep())
    ensures r == Ran(Console.NotOpen) ==>
      && (client.channel.closed || client.channel.exited)
      && client.channel.agent.Devices() == old(client.channel.agent.Devices())
    ensures r.Ran? && !r.execution.NotOpen? ==>
      exists bytes :: Executed(command, prompt, tokenHex, statusHex, encode, r.execution, old(client.serialBuffer),
        old(client.channel.agent.Devices()), bytes, client.serialBuffer, client.channel.agent.Devices())
    ensures r.Ran? && !r.execution.NotOpen? ==>
      exists events ::
        && client.asks == old(client.asks) + |events| && Drained(events, client.serialBuffer)
        && Console.ExecutesTo(Console.Token(tokenHex), prompt, Line(command, prompt, tokenHex, statusHex), events,
             r.execution, |events|)
        && (r.execution == Console.NotFinished(Console.Closed) ==> client.channel.exited)
        && (r.execution.NotFinished? && r.execution.response.TimedOut? ==> |events| == passes)
    ensures r.TransportFailed? ==>
      Justified(client, r.failure, old(client.channel.polled), old(client.channel.refused), polls,
        |encode(Line(command, prompt, tokenHex, statusHex) + "\r")|)
  {
    hide *;
    ghost var buffer, before := client.serialBuffer, client.channel.agent.Devices();
    var closed := IsClosed(client);
    if closed {
      return Ran(Console.NotOpen);
    }
    var token := Console.Token(tokenHex);
    var submitted := Line(command, prompt, tokenHex, statusHex);
    Console.NamesAreWords(tokenHex);
    Console.WordText(token);
    var line := encode(submitted + "\r");
    var sent := Send(client, line, polls);
    if sent.Some? {
      return TransportFailed(sent.value);
    }
    ghost var devices, polled, refused := client.channel.agent.Devices(), client.channel.polled, client.channel.refused;
    var reading, events, bytes := ReadAnswer(client, token, prompt, passes, polls);
    if reading.ReadFailed? {
      JustifiedSince(client, reading.failure, polled, refused, polls, 0, old(client.channel.polled),
        old(client.channel.refused), |line|);
      return TransportFailed(reading.failure);
    }
    Console.ReadExecutes(token, prompt, submitted, events, reading.response, |events|);
    Console.ExecutionIs(reading.response, submitted);
    LineIs(command, prompt, tokenHex, statusHex);
    Console.ReadAgrees(command, prompt, tokenHex, statusHex, events, reading.response);
    var execution := Console.ExecutionOf(reading.response, submitted);
    IsExecuted(command, prompt, tokenHex, statusHex, encode, execution, buffer, before, devices, bytes,
      client.serialBuffer, client.channel.agent.Devices());
    r := Ran(execution);
  }

  /** The line that is submitted for a command. */
  function Line(command: UnixCommand, prompt: string, tokenHex: string, statusHex: string): string {
    Console.Submitted(command.Text(), prompt, Console.Token(tokenHex), Console.StatusName(statusHex))
  }

  lemma LineIs(command: UnixCommand, prompt: string, tokenHex: string, statusHex: string)
    ensures Line(command, prompt, tokenHex, statusHex)
      == Console.Submitted(command.Text(), prompt, Console.Token(tokenHex), Console.StatusName(statusHex))
  {
  }

  /** Send the line; without a failure the device took it, and only it. */
  method Send(client: SerialAgentChannel, line: seq<byte>, polls: nat) returns (failure: Option<Failure>)
    requires client.Valid() && client.InStep()
    modifies client, client.channel, client.channel.agent, client.channel.agent.created, client.channel.agent.host
    ensures client.Valid()
    ensures fresh(set c | c in client.channel.agent.created && c !in old(client.channel.agent.created))
    ensures client.asks == old(client.asks) && client.serialBuffer == old(client.serialBuffer)
    ensures client.channel.polled >= old(client.channel.polled)
    ensures client.channel.refused >= old(client.channel.refused)
    ensures failure.None? ==>
      && client.InStep()
      && NewestTook(client.channel.agent.Devices()) == old(NewestTook(client.channel.agent.Devices())) + line
      && TotalGiven(client.channel.agent.Devices()) == old(TotalGiven(client.channel.agent.Devices()))
    ensures failure.Some? ==>
      Justified(client, failure.value, old(client.channel.polled), old(client.channel.refused), polls, |line|)
  {
    hide Queued, TotalGiven, NewestTook, SerialAgentChannel.Valid, SerialAgentChannel.InStep, Quiet;
    hide SerialAgent.Devices;
    AccountsAre(client);
    var sent := client.SendAll(line, polls);
    if !sent.Got? {
      return Some(FailureOf(sent));
    }
    AccountsAre(client);
    return None;
  }

  method IsClosed(client: SerialAgentChannel) returns (closed: bool)
    requires client.Valid() && client.InStep()
    modifies client.channel`toAgent, client.channel`toClient, client.channel`exited, client.channel`history
    modifies client.channel.agent, client.channel.agent.created, client.channel.agent.host
    ensures client.Valid() && client.InStep()
    ensures fresh(set c | c in client.channel.agent.created && c !in old(client.channel.agent.created))
    ensures client.channel.agent.Devices() == old(client.channel.agent.Devices())
    ensures closed ==> client.channel.closed || client.channel.exited
  {
    hide Queued, TotalGiven, NewestTook, SshChannel.Valid, Quiet, SerialAgent.Devices;
    AgentDevices(client.channel);
    ghost var start := client.Abs();
    closed := client.Closed();
    AgentDevices(client.channel);
    StaysInStep(client.channel.codec, start, client.Abs());
  }

  /** The line went to the device, and the execution agrees with the bytes that came back. */
  ghost predicate Executed(
    command: UnixCommand, prompt: string, tokenHex: string, statusHex: string, encode: string -> seq<byte>,
    execution: Console.Execution, buffer: seq<byte>, before: seq<Device>, bytes: seq<byte>, now: seq<byte>,
    after: seq<Device>
  ) {
    && buffer <= bytes + now
    && TotalGiven(after) == TotalGiven(before) + (bytes + now)[|buffer|..]
    && NewestTook(after) == NewestTook(before) + encode(Line(command, prompt, tokenHex, statusHex) + "\r")
    && Console.Agrees(command, prompt, tokenHex, statusHex, Text(bytes), execution)
  }

  lemma IsExecuted(
    command: UnixCommand, prompt: string, tokenHex: string, statusHex: string, encode: string -> seq<byte>,
    execution: Console.Execution, buffer: seq<byte>, before: seq<Device>, devices: seq<Device>, bytes: seq<byte>,
    now: seq<byte>, after: seq<Device>
  )
    requires HasRead(buffer, devices, bytes, now, after) && TotalGiven(devices) == TotalGiven(before)
    requires NewestTook(devices) == NewestTook(before) + encode(Line(command, prompt, tokenHex, statusHex) + "\r")
    requires Console.Agrees(command, prompt, tokenHex, statusHex, Text(bytes), execution)
    ensures Executed(
      command, prompt, tokenHex, statusHex, encode, execution, buffer, before, bytes, now, after)
  {
    hide TotalGiven, NewestTook, Console.Agrees, Line, Text;
  }

  /**
  The result of a command in terms of the device: when the console had printed nothing else and all that
  the device gave during the call has been read, and that is what a terminal with a shell sends for the
  submitted line, the call returned the output and the status of the command.
  */
  lemma CommandOverAgent(
    command: UnixCommand, prompt: string, tokenHex: string, statusHex: string, encode: string -> seq<byte>,
    execution: Console.Execution, before: seq<Device>, bytes: seq<byte>, after: seq<Device>,
    echoed: bool, s: Shell.State, e: Shell.Effect, given: seq<byte>
  )
    requires Executed(command, prompt, tokenHex, statusHex, encode, execution, [], before, bytes, [], after)
    requires TotalGiven(after) == TotalGiven(before) + given
    requires Console.Separable(command, prompt, Console.Token(tokenHex), echoed, e.output)
    requires Console.Answers(command, prompt, tokenHex, statusHex, echoed, s, e, Text(given))
    ensures execution == Console.Finished(Console.CommandResult(LStrip(e.output, '\n'), "", e.status))
  {
    hide TotalGiven, NewestTook, Console.Answers, Console.Separable, Console.Submitted, Text, LStrip;
    assert bytes + [] == bytes && bytes[0..] == bytes;
    SameTail(TotalGiven(before), bytes, given);
    assert execution.Finished?;
    assert execution.result == Console.CommandResult(LStrip(e.output, '\n'), "", e.status);
  }

  lemma SameTail(start: seq<byte>, a: seq<byte>, b: seq<byte>)
    requires start + a == start + b
    ensures a == b
  {
    assert a == (start + a)[|start|..] && b == (start + b)[|start|..];
  }
}
