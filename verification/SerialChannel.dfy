/**
The client side of the agent protocol, composed with the agent and its device over two byte streams
that may be cut into chunks anywhere. Every call on the client is a call on the link between the two;
what is said about the device's bytes is said of a client that is in step: every request so far has
consumed its response.
*/
module SerialChannel {
  import opened Sequences
  import opened Json
  import opened AgentProtocol
  import opened SerialAgent
  import opened AgentMain
  import opened SerialLink
  import opened SerialProgram
  import Base64

  const MAX_RESPONSE_BYTES := 1_048_576
  const READ_SIZE := 65_535

  /** 0.05, which as a double is 3602879701896397 times 2^-56. */
  const READ_TIMEOUT: int := 0x3333333333333400000000000000000000000000000000000000000000000000000000000000000000000000000000000000000000000000000000000000000000000000000000000000000000000000000000000000000000000000000000000000000000000000000000000000000000000000000000000000000000000000000000000000

  // ----- What an answered request tells the client -----

  function ReadRequest(): Request {
    map["version" := Int(1), "operation" := Str("read"), "size" := Int(READ_SIZE),
        "timeout" := Number(Finite(READ_TIMEOUT))]
  }

  function OpenRequest(device: string, baudrate: int): Request {
    map["version" := Int(1), "operation" := Str("open"), "device" := Str(device), "baudrate" := Int(baudrate)]
  }

  function CloseRequest(): Request { map["version" := Int(1), "operation" := Str("close")] }

  predicate Accepted(response: Response) { Get(response, "ok") == Bool(true) }

  /** Every byte that these devices gave, one device after the other. */
  function TotalGiven(devices: seq<Device>): seq<byte> {
    if devices == [] then [] else TotalGiven(devices[..|devices| - 1]) + devices[|devices| - 1].given
  }

  /** Every byte that the newest of these devices took. */
  function NewestTook(devices: seq<Device>): seq<byte> {
    if devices == [] then [] else devices[|devices| - 1].taken
  }

  lemma TotalGivenStep(devices: seq<Device>, before: bool, e: Effect, after: bool)
    requires before ==> devices != []
    requires !before ==> e.taken == [] && e.given == []
    ensures TotalGiven(DevicesAfter(devices, before, e, after)) == TotalGiven(devices) + e.given
  {
    var later := DevicesAfter(devices, before, e, after);
    if later == devices {
      assert TotalGiven(devices) + [] == TotalGiven(devices);
    } else if before {
      var n := |devices| - 1;
      assert later[..n] == devices[..n];
      var earlier := TotalGiven(devices[..n]);
      assert earlier + (devices[n].given + e.given) == earlier + devices[n].given + e.given;
    } else {
      assert later[..|devices|] == devices;
    }
  }

  /** Without a device a line moves no byte. */
  lemma NoDeviceNoBytes(codec: Codec, x: Exchange)
    requires Answers(codec, x) && !x.before
    ensures x.effect.taken == [] && x.effect.given == []
  {
    hide RequireInt, RequireString, RequireTimeout, DecodePayload, ValidateDevice;
  }

  lemma {:induction false} OpenMeansOpened(codec: Codec, history: seq<Exchange>)
    requires Session(codec, history) && ConnectedAfter(history)
    ensures DevicesOf(history) != []
  {
    hide Answers;
    var n := |history| - 1;
    if history[n].before {
      var earlier := history[..n];
      assert n > 0 && history[n - 1].after == history[n].before;
      OpenMeansOpened(codec, earlier);
    }
  }

  /** What one more exchange does to the accounts of the devices. */
  lemma Accounts(codec: Codec, history: seq<Exchange>, x: Exchange)
    requires Session(codec, history + [x])
    ensures TotalGiven(DevicesOf(history + [x])) == TotalGiven(DevicesOf(history)) + x.effect.given
    ensures x.before ==>
      NewestTook(DevicesOf(history + [x])) == NewestTook(DevicesOf(history)) + x.effect.taken
    ensures !x.before && x.after ==> NewestTook(DevicesOf(history + [x])) == []
  {
    hide *;
    EarlierSession(codec, history, x);
    if x.before {
      OpenMeansOpened(codec, history);
    } else {
      NoDeviceNoBytes(codec, x);
    }
    DevicesSnoc(history, x);
    TotalGivenStep(DevicesOf(history), x.before, x.effect, x.after);
    NewestTookStep(DevicesOf(history), x.before, x.effect, x.after);
  }

  lemma NewestTookStep(devices: seq<Device>, before: bool, e: Effect, after: bool)
    requires before ==> devices != []
    ensures before ==> NewestTook(DevicesAfter(devices, before, e, after)) == NewestTook(devices) + e.taken
    ensures !before && after ==> NewestTook(DevicesAfter(devices, before, e, after)) == []
  {
    if before && e.taken == [] {
      assert NewestTook(devices) + [] == NewestTook(devices);
    }
  }

  lemma EarlierSession(codec: Codec, history: seq<Exchange>, x: Exchange)
    requires Session(codec, history + [x])
    ensures Session(codec, history) && Answers(codec, x)
    ensures x.before ==> ConnectedAfter(history)
  {
    hide Answers;
    var longer := history + [x];
    assert longer[|history|] == x;
    assert forall i :: 0 <= i < |history| ==> history[i] == longer[i];
    if x.before {
      assert history != [];
      assert longer[|history| - 1].after == longer[|history|].before;
    }
  }

  /** A write acknowledged with the full count means that the device took exactly the payload. */
  lemma WriteAcknowledged(codec: Codec, x: Exchange, payload: seq<byte>)
    requires Faithful(codec) && Answers(codec, x) && !x.outcome.Crashed?
    requires x.line == RequestLine(codec, WriteRequest(Base64.Encode(payload)))
    requires Accepted(x.Response()) && Get(x.Response(), "written") == Int(|payload|)
    ensures x.effect.taken == payload && x.before && x.after && x.Continues()
  {
    hide Base64.Encode, DecodePayload, ValidateDevice, RequireInt, RequireTimeout, RequireString;
    var request := WriteRequest(Base64.Encode(payload));
    assert x.outcome.Reply?;
    assert DecodeRequest(codec, x.line) == Result.Ok(request);
    assert Validate(request, x.before).Ok?;
    assert ValidateEnvelope(request) == Result.Ok("write");
    var action := Validate(request, x.before).value;
    assert action.Write?;
    WritesPayload(request, payload, x.before);
  }

  /** An acknowledgement of less than the payload means that the device took less. */
  lemma PartlyAcknowledged(codec: Codec, x: Exchange, payload: seq<byte>)
    requires Faithful(codec) && Answers(codec, x) && !x.outcome.Crashed?
    requires x.line == RequestLine(codec, WriteRequest(Base64.Encode(payload)))
    requires Accepted(x.Response()) && Get(x.Response(), "written") != Int(|payload|)
    ensures |x.effect.taken| < |payload|
  {
    hide Base64.Encode, DecodePayload, ValidateDevice, RequireInt, RequireTimeout, RequireString;
    var request := WriteRequest(Base64.Encode(payload));
    assert DecodeRequest(codec, x.line) == Result.Ok(request);
    assert ValidateEnvelope(request) == Result.Ok("write");
    WritesPayload(request, payload, x.before);
  }

  lemma WritesPayload(request: Request, payload: seq<byte>, connected: bool)
    requires request == WriteRequest(Base64.Encode(payload))
    requires Validate(request, connected).Ok?
    ensures Validate(request, connected) == Result.Ok(Action.Write(payload)) && connected
  {
    hide Base64.Encode, Base64.DecodeStrict, ValidateDevice, RequireInt, RequireTimeout;
    Base64.StrictRoundTrip(payload);
    assert ValidateEnvelope(request) == Result.Ok("write");
  }

  /**
  With a device open the agent accepts the reads of the client, of 65535 bytes with the timeout 0.05, which
  as a double is 3602879701896397 times 2^-56.
  */
  lemma ReadIsAccepted()
    ensures Validate(ReadRequest(), true) == Result.Ok(Action.Read(65_535, Finite(READ_TIMEOUT)))
    ensures READ_TIMEOUT * 0x100_0000_0000_0000 == 3602879701896397 * UNITS_PER_ONE
  {
    hide Base64.Encode, Base64.DecodeStrict, ValidateDevice, DecodePayload;
    assert ValidateEnvelope(ReadRequest()) == Result.Ok("read");
  }

  lemma ReadNeedsDevice()
    ensures Validate(ReadRequest(), false) == Result.Err(NOT_OPEN)
  {
    hide Base64.Encode, Base64.DecodeStrict, ValidateDevice, DecodePayload;
    assert ValidateEnvelope(ReadRequest()) == Result.Ok("read");
  }

  /** With a device open the agent accepts a write of the client exactly when it has 1 to 262144 bytes. */
  lemma WriteIsAccepted(payload: seq<byte>)
    ensures Validate(WriteRequest(Base64.Encode(payload)), true) == Result.Ok(Action.Write(payload))
      <==> 1 <= |payload| <= MAX_PAYLOAD_BYTES
  {
    hide Base64.Encode, Base64.DecodeStrict, ValidateDevice, DecodePayload;
    var request := WriteRequest(Base64.Encode(payload));
    PayloadRoundTrip(request, payload);
    assert ValidateEnvelope(request) == Result.Ok("write");
  }

  /** A read response carries exactly the bytes that the device gave; an error carries none. */
  lemma ReadAnswered(codec: Codec, x: Exchange)
    requires Faithful(codec) && Answers(codec, x) && !x.outcome.Crashed?
    requires x.line == RequestLine(codec, ReadRequest())
    ensures Accepted(x.Response()) ==>
      && Get(x.Response(), "data") == Str(Base64.Encode(x.effect.given))
      && x.effect.taken == [] && x.before && x.after && x.Continues()
      && x.effect.calls == [ReadFrom(READ_SIZE, Finite(READ_TIMEOUT), Done(x.effect.given))]
    ensures !Accepted(x.Response()) ==> x.effect.given == []
  {
    hide Base64.Encode, Validate, ValidateEnvelope;
    ReadIsAccepted();
    ReadNeedsDevice();
    assert |x.line| <= MAX_JSON_LINE_BYTES ==> DecodeRequest(codec, x.line) == Result.Ok(ReadRequest());
  }

  /** A reset that is accepted reset the input of an open device and did nothing else to it. */
  lemma ResetAnswered(codec: Codec, x: Exchange, request: Request)
    requires Faithful(codec) && Answers(codec, x) && !x.outcome.Crashed?
    requires x.line == RequestLine(codec, request) && Accepted(x.Response())
    requires request == map["version" := Int(1), "operation" := Str("reset_input")]
    ensures x.effect == Effect([], [], [ResetInputBuffer(Done(()))]) && x.before && x.after && x.Continues()
  {
    hide Base64.Encode, DecodePayload, ValidateDevice, RequireInt, RequireTimeout, RequireString;
    assert DecodeRequest(codec, x.line) == Result.Ok(request);
    assert ValidateEnvelope(request) == Result.Ok("reset_input");
    assert x.effect.calls[0].reset.Done?;
    UnitIsUnit(x.effect.calls[0].reset.value);
    assert x.effect.calls == [x.effect.calls[0]];
  }

  lemma UnitIsUnit(u: ())
    ensures u == ()
  {
  }

  /** Requests other than a read give no device bytes. */
  lemma OnlyReadsGive(codec: Codec, x: Exchange, request: Request)
    requires Faithful(codec) && Answers(codec, x)
    requires x.line == RequestLine(codec, request) && Get(request, "operation") != Str("read")
    ensures x.effect.given == []
  {
    hide Base64.Encode, DecodePayload, ValidateDevice, RequireInt, RequireTimeout, RequireString;
    if |x.line| <= MAX_JSON_LINE_BYTES {
      assert DecodeRequest(codec, x.line) == Result.Ok(request);
    }
  }

  /** The data of an accepted answer is what the device gave, and a read writes nothing. */
  lemma ReadAccounted(codec: Codec, history: seq<Exchange>, x: Exchange)
    requires Faithful(codec) && Session(codec, history + [x]) && !x.outcome.Crashed?
    requires x.line == RequestLine(codec, ReadRequest())
    ensures Accepted(x.Response()) ==>
      && Get(x.Response(), "data").Str?
      && Base64.DecodeStrict(Get(x.Response(), "data").text) == Some(x.effect.given)
      && NewestTook(DevicesOf(history + [x])) == NewestTook(DevicesOf(history))
    ensures !Accepted(x.Response()) ==> x.effect.given == []
  {
    hide Session, Answers, Accepted, NewestTook, DevicesOf, Exchange.Response, Faithful;
    hide Base64.Encode, Base64.DecodeStrict;
    EarlierSession(codec, history, x);
    ReadAnswered(codec, x);
    Base64.StrictRoundTrip(x.effect.given);
    Accounts(codec, history, x);
    assert NewestTook(DevicesOf(history)) + [] == NewestTook(DevicesOf(history));
  }

  // ----- The remote end -----

  /**
  The SSH channel with the agent process behind it. Bytes wait in each direction until the other side
  takes them; the agent makes progress at any time and by any amount that it could make by itself.
  */
  class SshChannel {
    const codec: Codec
    const agent: SerialAgent
    var toAgent: seq<byte>
    var toClient: seq<byte>
    var exited: bool
    var closed: bool
    ghost var history: seq<Exchange>
    ghost var polled: nat
    ghost var refused: nat

    constructor (codec: Codec)
      ensures Valid() && toAgent == toClient == [] && history == [] && !exited
      ensures fresh(agent) && fresh(agent.created) && fresh(agent.host) && this.codec == codec
    {
      this.codec := codec;
      var host := new Host();
      agent := new SerialAgent(host);
      toAgent, toClient, history := [], [], [];
      exited, closed := false, false;
      polled, refused := 0, 0;
    }

    ghost predicate Valid()
      reads this, agent, agent.created, agent.host
    {
      && agent.Valid()
      && Session(codec, history)
      && (exited <==> !Running(history))
      && (!exited ==> ConnectedAfter(history) == agent.Connected() && agent.host.calls == CallsOf(history))
      && agent.Devices() == DevicesOf(history) && CallsOf(history) <= agent.host.calls
    }

    /** The two streams and the lines served, as a link with an idle client. */
    ghost function Wire(): Link
      reads this
    {
      Link(toAgent, toClient, [], history, [], [])
    }

    /** The agent answers one line; a stop or a crash ends the process, which releases the device. */
    method Answer(line: seq<byte>)
      requires Valid() && !exited
      modifies this`toClient, this`exited, this`history, agent, agent.created, agent.host
      ensures Valid() && fresh(set c | c in agent.created && c !in old(agent.created))
      ensures |history| == |old(history)| + 1 && old(history) == history[..|old(history)|]
      ensures history[|history| - 1].line == line
      ensures toClient == old(toClient) + Output(codec, [history[|history| - 1]])
    {
      hide Answers, Session, SerialAgent.Valid, SerialAgent.Devices, DevicesOf, CallsOf, Output, ConnectedAfter;
      var outcome, x := Handle(line);
      Deliver(outcome, x);
      if exited {
        var _, _ := CloseAtEnd(agent);
      }
    }

    /** The agent handles one line, which becomes part of the history. */
    method Handle(line: seq<byte>) returns (outcome: Outcome, ghost x: Exchange)
      requires Valid() && !exited
      modifies this`history, agent, agent.created, agent.host
      ensures agent.Valid() && fresh(set c | c in agent.created && c !in old(agent.created))
      ensures Session(codec, history) && history == old(history) + [x]
      ensures x.line == line && x.outcome == outcome && Running(history) == x.Continues()
      ensures ConnectedAfter(history) == agent.Connected()
      ensures agent.Devices() == DevicesOf(history) && agent.host.calls == CallsOf(history)
    {
      hide Answers, Session, SerialAgent.Valid, SerialAgent.Devices, SerialAgent.Affected, DevicesOf, CallsOf;
      outcome, x := ServeLine(codec, agent, line);
      SessionGrows(codec, history, x);
      DevicesSnoc(history, x);
      CallsSnoc(history, x);
      history := history + [x];
    }

    /** Put the response on its way; the process ends after a stop or a crash. */
    method Deliver(outcome: Outcome, ghost x: Exchange)
      requires !exited && x.outcome == outcome
      modifies this`toClient, this`exited
      ensures exited <==> !x.Continues()
      ensures toClient == old(toClient) + Output(codec, [x])
    {
      hide EncodeResponse, Failure, Output;
      OutputSteps(codec, [], x);
      assert [] + [x] == [x];
      match outcome {
        case Crashed =>
          exited := true;
          assert toClient + [] == toClient;
        case Failed(error) => toClient := toClient + EncodeResponse(codec, Failure(error));
        case Reply(response, stop) =>
          toClient := toClient + EncodeResponse(codec, response);
          exited := stop;
      }
    }

    /** The agent serves the next whole line, or stays blocked when there is none. */
    method ServeOne()
      requires Valid() && !exited
      modifies this`toAgent, this`toClient, this`exited, this`history, agent, agent.created, agent.host
      ensures Valid() && fresh(set c | c in agent.created && c !in old(agent.created))
      ensures Quiet(codec, old(Wire()), Wire())
    {
      hide Answers, Session, Output, Quiet, DevicesOf, SerialAgent.Valid, SerialAgent.Devices;
      ghost var start := Wire();
      QuietReflexive(codec, start);
      var i := IndexOf(toAgent, NEWLINE);
      if i == |toAgent| {
        return;
      }
      var line := toAgent[..i + 1];
      toAgent := toAgent[i + 1..];
      assert start.toAgent == line + toAgent;
      Answer(line);
      ghost var x := history[|history| - 1];
      assert history == start.history + [x];
      QuietServe(codec, start, line, toAgent, x);
    }

    /** Any amount of progress of the remote process. */
    method Advance()
      requires Valid()
      modifies this`toAgent, this`toClient, this`exited, this`history, agent, agent.created, agent.host
      ensures Valid() && fresh(set c | c in agent.created && c !in old(agent.created))
      ensures Quiet(codec, old(Wire()), Wire())
    {
      hide Quiet, Session, DevicesOf, SerialAgent.Valid, SerialAgent.Devices;
      var budget: nat := *;
      ghost var start := Wire();
      QuietReflexive(codec, start);
      while budget > 0 && !exited
        invariant Valid() && fresh(set c | c in agent.created && c !in old(agent.created))
        invariant Quiet(codec, start, Wire())
      {
        ghost var before := Wire();
        ServeOne();
        QuietTransitive(codec, start, before, Wire());
        budget := budget - 1;
      }
    }

    /** Python's sendall: all bytes are accepted, or an unknown part of them and an exception. */
    method SendAll(bytes: seq<byte>) returns (ok: bool)
      requires Valid()
      modifies this`toAgent, this`refused
      ensures Valid() && refused == old(refused) + (if ok then 0 else 1)
      ensures ok ==> toAgent == old(toAgent) + bytes
    {
      hide Answers, Session, DevicesOf, Running, ConnectedAfter, SerialAgent.Valid, SerialAgent.Devices;
      ok := *;
      assert 0 <= |bytes|;
      var count: nat :| count <= |bytes|;
      toAgent := toAgent + if ok then bytes else bytes[..count];
      refused := refused + if ok then 0 else 1;
    }

    method RecvReady() returns (ready: bool)
      requires Valid()
      modifies this`toAgent, this`toClient, this`exited, this`history, this`polled, agent, agent.created, agent.host
      ensures Valid() && fresh(set c | c in agent.created && c !in old(agent.created))
      ensures Quiet(codec, old(Wire()), Wire())
      ensures ready ==> toClient != []
      ensures polled == old(polled) + 1
    {
      Advance();
      polled := polled + 1;
      ready := *;
      if toClient == [] {
        ready := false;
      }
    }

    /** Some non-empty beginning of what has arrived. */
    method Recv(limit: nat) returns (chunk: seq<byte>)
      requires Valid() && limit > 0 && toClient != []
      modifies this`toClient
      ensures Valid() && chunk != [] && |chunk| <= limit
      ensures old(toClient) == chunk + toClient
    {
      hide Answers, Session, DevicesOf, Running, ConnectedAfter, SerialAgent.Valid, SerialAgent.Devices;
      var bound := if |toClient| < limit then |toClient| else limit;
      assert 1 <= bound;
      var count: nat :| 1 <= count <= bound;
      chunk := toClient[..count];
      toClient := toClient[count..];
    }

    method Close()
      requires Valid()
      modifies this`closed
      ensures Valid() && closed
    {
      closed := true;
    }

    method ExitStatusReady() returns (ready: bool)
      requires Valid()
      modifies this`toAgent, this`toClient, this`exited, this`history, agent, agent.created, agent.host
      ensures Valid() && fresh(set c | c in agent.created && c !in old(agent.created))
      ensures Quiet(codec, old(Wire()), Wire())
      ensures ready ==> exited
    {
      Advance();
      ready := *;
      ready := ready && exited;
    }
  }

  lemma HelloAnswered(codec: Codec, x: Exchange, request: Request)
    requires Faithful(codec) && Answers(codec, x) && !x.outcome.Crashed?
    requires x.line == RequestLine(codec, request) && Accepted(x.Response())
    requires request == map["version" := Int(1), "operation" := Str("hello")]
    ensures Get(x.Response(), "agent_version") == Str(AGENT_VERSION)
  {
    assert DecodeRequest(codec, x.line) == Result.Ok(request);
    assert ValidateEnvelope(request) == Result.Ok("hello");
  }

  /** An accepted open found no device open and opened one, which has taken nothing yet. */
  lemma OpenAnswered(codec: Codec, x: Exchange, request: Request, device: string, baudrate: int)
    requires Faithful(codec) && Answers(codec, x) && !x.outcome.Crashed?
    requires x.line == RequestLine(codec, request) && Accepted(x.Response())
    requires request == OpenRequest(device, baudrate)
    ensures x.effect == Effect([], [], [Checked(device, Done(true)), Opened(device, baudrate, Done(()))])
    ensures !x.before && x.after && x.Continues()
  {
    hide Base64.Encode, Validate, ValidateDevice, PermitsOpen, PermitsWrite, PermitsRead, PermitsClose;
    assert DecodeRequest(codec, x.line) == Result.Ok(request);
    var action := Validate(request, x.before).value;
    ValidateAccepts(request, x.before, action);
    assert action == Action.Open(device, baudrate);
    assert PermitsOpen(device, baudrate, x.outcome, x.effect.calls, x.after);
    OpenCalls(device, baudrate, x.outcome, x.effect.calls, x.after);
  }

  lemma OpenCalls(device: string, baudrate: int, o: Outcome, calls: seq<HostCall>, after: bool)
    requires PermitsOpen(device, baudrate, o, calls, after) && o.Reply?
    ensures calls == [Checked(device, Done(true)), Opened(device, baudrate, Done(()))] && after && !o.stop
  {
    UnitIsUnit(calls[1].opening.value);
    assert calls == [calls[0], calls[1]];
  }

  /** An accepted close stops the agent and has closed the device, if there was one. */
  lemma CloseAnswered(codec: Codec, x: Exchange, request: Request)
    requires Faithful(codec) && Answers(codec, x) && !x.outcome.Crashed?
    requires x.line == RequestLine(codec, request) && Accepted(x.Response())
    requires request == CloseRequest()
    ensures x.effect == Effect([], [], if x.before then [ClosedDevice(Done(()))] else []) && !x.after && !x.Continues()
  {
    hide Base64.Encode, DecodePayload, ValidateDevice, RequireInt, RequireTimeout, RequireString;
    assert DecodeRequest(codec, x.line) == Result.Ok(request);
    assert ValidateEnvelope(request) == Result.Ok("close");
    if x.before {
      assert x.effect.calls[0].closed.Done?;
      UnitIsUnit(x.effect.calls[0].closed.value);
      assert x.effect.calls == [x.effect.calls[0]];
    }
  }

  // ----- The client -----

  datatype Ask = Ask(operation: string, values: Fields)

  function RequestOf(ask: Ask): Request {
    map["version" := Int(1), "operation" := Str(ask.operation)] + ask.values
  }

  lemma RequestIs(ask: Ask)
    ensures RequestOf(ask) == map["version" := Int(1), "operation" := Str(ask.operation)] + ask.values
  {
  }

  function Requests(asks: seq<Ask>): (r: seq<Request>)
    ensures |r| == |asks|
  {
    seq(|asks|, i requires 0 <= i < |asks| => RequestOf(asks[i]))
  }

  lemma CallsGrow(
    codec: Codec, links: seq<Link>, asks: seq<Ask>, n: nat, endings: seq<Ending>, ending: Ending, next: Link
  )
    requires n < |asks| && Calls(codec, links, Requests(asks[..n]), endings)
    requires ending != Broken && Call(codec, links[n], RequestOf(asks[n]), ending, next)
    ensures Calls(codec, links + [next], Requests(asks[..n + 1]), endings + [ending])
  {
    hide Call, RequestOf;
    assert Requests(asks[..n + 1]) == Requests(asks[..n]) + [RequestOf(asks[n])];
  }

  /** The requests that one call of a program sends when this is buffered and the agent is there. */
  function RequestsOf(command: Command, buffer: seq<byte>): seq<Request> {
    match command
    case Send(payload) => [WriteRequest(Base64.Encode(payload))]
    case Ready => if buffer == [] then [ReadRequest()] else []
    case Receive(_) => []
    case Reset => [ResetRequest()]
  }

  class SerialAgentChannel {
    const channel: SshChannel
    var responseBuffer: seq<byte>
    var serialBuffer: seq<byte>
    ghost var sent: seq<Request>
    ghost var answered: seq<Response>
    ghost var discarded: seq<byte>
    ghost var received: seq<byte>
    ghost var asks: nat

    ghost predicate Valid()
      reads this, channel, channel.agent, channel.agent.created, channel.agent.host
    {
      channel.Valid() && Faithful(channel.codec)
    }

    ghost function Abs(): Link
      reads this, channel
    {
      Link(channel.toAgent, channel.toClient, responseBuffer, channel.history, sent, answered)
    }

    /**
    Nothing is outstanding, and what the devices gave is what the last reset discarded, what recv
    returned since then, and the local buffer.
    */
    ghost predicate InStep()
      reads this, channel
    {
      && Queued(channel.codec, Abs()) && |answered| == |sent|
      && TotalGiven(DevicesOf(channel.history)) == discarded + received + serialBuffer
    }

    /** The same account kept by the devices themselves. */
    ghost predicate Accounted()
      reads this, channel, channel.agent, channel.agent.created, channel.agent.host
    {
      TotalGiven(channel.agent.Devices()) == discarded + received + serialBuffer
    }

    constructor (codec: Codec)
      requires Faithful(codec)
      ensures Valid() && InStep() && Accounted()
      ensures fresh(channel) && fresh(channel.agent) && fresh(channel.agent.created) && fresh(channel.agent.host)
      ensures Abs() == START && discarded == received == serialBuffer == []
    {
      channel := new SshChannel(codec);
      responseBuffer, serialBuffer := [], [];
      sent, answered, discarded, received, asks := [], [], [], [], 0;
      new;
      StartIsQueued(codec);
      NoDevices();
    }

    /** Closed: by this side, or because the agent is known to have exited. */
    method Closed() returns (r: bool)
      requires Valid()
      modifies channel`toAgent, channel`toClient, channel`exited, channel`history
      modifies channel.agent, channel.agent.created, channel.agent.host
      ensures Valid() && fresh(set c | c in channel.agent.created && c !in old(channel.agent.created))
      ensures Quiet(channel.codec, old(Abs()), Abs())
      ensures r ==> channel.closed || channel.exited
    {
      hide Session, Quiet, SerialAgent.Valid, SerialAgent.Devices, DevicesOf, Running, ConnectedAfter;
      ghost var wire := channel.Wire();
      QuietReflexive(channel.codec, Abs());
      r := channel.closed;
      if !r {
        r := channel.ExitStatusReady();
        QuietLift(channel.codec, wire, channel.Wire(), responseBuffer, sent, answered);
      }
    }

    /** Ask for input, and move what is there, if anything, to the response buffer. */
    method Poll() returns (ready: bool)
      requires Valid()
      modifies this`responseBuffer
      modifies channel`toAgent, channel`toClient, channel`exited, channel`history, channel`polled, channel`refused
      modifies channel.agent, channel.agent.created, channel.agent.host
      ensures Valid() && fresh(set c | c in channel.agent.created && c !in old(channel.agent.created))
      ensures Quiet(channel.codec, old(Abs()), Abs())
      ensures channel.polled == old(channel.polled) + 1 && channel.refused == old(channel.refused)
      ensures old(responseBuffer) <= responseBuffer && |responseBuffer| <= |old(responseBuffer)| + READ_SIZE
      ensures !ready ==> responseBuffer == old(responseBuffer)
    {
      hide Session, Quiet, SerialAgent.Valid, SerialAgent.Devices, DevicesOf, Running, ConnectedAfter;
      ghost var start, wire := Abs(), channel.Wire();
      ready := channel.RecvReady();
      QuietLift(channel.codec, wire, channel.Wire(), responseBuffer, sent, answered);
      if ready {
        ghost var before := Abs();
        var chunk := channel.Recv(READ_SIZE);
        responseBuffer := responseBuffer + chunk;
        QuietArrive(channel.codec, before, chunk, channel.toClient);
        QuietTransitive(channel.codec, start, before, Abs());
      }
    }

    method ExitStatus() returns (ready: bool)
      requires Valid()
      modifies channel`toAgent, channel`toClient, channel`exited, channel`history, channel`polled, channel`refused
      modifies channel.agent, channel.agent.created, channel.agent.host
      ensures Valid() && fresh(set c | c in channel.agent.created && c !in old(channel.agent.created))
      ensures Quiet(channel.codec, old(Abs()), Abs())
      ensures ready ==> channel.exited
      ensures channel.polled == old(channel.polled) && channel.refused == old(channel.refused)
    {
      hide Session, Quiet, SerialAgent.Valid, SerialAgent.Devices, DevicesOf, Running, ConnectedAfter;
      ghost var wire := channel.Wire();
      ready := channel.ExitStatusReady();
      QuietLift(channel.codec, wire, channel.Wire(), responseBuffer, sent, answered);
    }

    /**
    Wait for the first response line. Each pass of the loop before the deadline uses up one poll;
    without a line the client has done nothing to the link.
    */
    method ReadResponse(polls: nat) returns (r: Answer<Response>, ghost took: bool, ghost atRead: Link)
      requires Valid()
      modifies this`responseBuffer, this`answered
      modifies channel`toAgent, channel`toClient, channel`exited, channel`history, channel`polled, channel`refused
      modifies channel.agent, channel.agent.created, channel.agent.host
      ensures Valid() && fresh(set c | c in channel.agent.created && c !in old(channel.agent.created))
      ensures !took ==> Quiet(channel.codec, old(Abs()), Abs())
      ensures channel.polled >= old(channel.polled) && channel.refused >= old(channel.refused)
      ensures !took ==> r in {Raised(TooLarge), Raised(AgentExited), Raised(TimedOut)} && Excused(r.reason, polls)
      ensures !took && r == Raised(TimedOut) && polls > 0 ==> OnlyNewlyComplete(responseBuffer)
      ensures !took && r != Raised(TooLarge) ==> Fits(old(responseBuffer), responseBuffer)
      ensures took ==>
        && Quiet(channel.codec, old(Abs()), atRead) && NEWLINE in atRead.buffer
        && r == FirstResponse(channel.codec, atRead) && Abs() == Consumed(channel.codec, atRead)
        && Fits(old(responseBuffer), atRead.buffer)
    {
      hide Session, Quiet, SshChannel.Valid, Faithful, DecodeResponse;
      ghost var start := Abs();
      atRead, took := start, false;
      StartOfRead(channel, start);
      var left := polls;
      while left > 0
        invariant Valid() && fresh(set c | c in channel.agent.created && c !in old(channel.agent.created))
        invariant !took && Quiet(channel.codec, start, Abs())
        invariant channel.refused == old(channel.refused)
        invariant 0 <= left <= polls && channel.polled == old(channel.polled) + (polls - left)
        invariant Fits(old(responseBuffer), responseBuffer)
        invariant left < polls ==> OnlyNewlyComplete(responseBuffer)
      {
        left := left - 1;
        var newline := IndexOf(responseBuffer, NEWLINE);
        if newline < |responseBuffer| {
          atRead, took := Abs(), true;
          r := DecodeResponse(channel.codec, responseBuffer[..newline]);
          responseBuffer := responseBuffer[newline + 1..];
          if r.Got? {
            answered := answered + [r.value];
          }
          return;
        }
        ghost var before := Abs();
        NoNewline(responseBuffer);
        var ready := Poll();
        NewlyComplete(before.buffer, responseBuffer);
        QuietTransitive(channel.codec, start, before, Abs());
        if ready {
          if |responseBuffer| > MAX_RESPONSE_BYTES {
            return Raised(TooLarge), took, atRead;
          }
        } else {
          ghost var polled := Abs();
          var exited := ExitStatus();
          QuietTransitive(channel.codec, start, polled, Abs());
          if exited {
            return Raised(AgentExited), took, atRead;
          }
        }
      }
      r := Raised(TimedOut);
    }

    /** Put one request on the wire, unless the agent is known to be gone. */
    method Submit(request: Request) returns (failure: Option<Reason>, ghost atSend: Link)
      requires Valid()
      modifies this`sent
      modifies channel`toAgent, channel`toClient, channel`exited, channel`history, channel`polled, channel`refused
      modifies channel.agent, channel.agent.created, channel.agent.host
      ensures Valid() && fresh(set c | c in channel.agent.created && c !in old(channel.agent.created))
      ensures failure in {None, Some(AgentExited), Some(SendFailed)}
      ensures failure != Some(SendFailed) ==> Quiet(channel.codec, old(Abs()), atSend)
      ensures failure == Some(AgentExited) ==> Abs() == atSend
      ensures failure.None? ==> Abs() == Submitted(channel.codec, atSend, request)
      ensures failure.Some? ==> Excused(failure.value, 0)
      ensures channel.polled == old(channel.polled) && responseBuffer == old(responseBuffer)
      ensures channel.refused >= old(channel.refused)
    {
      hide Session, Quiet, SshChannel.Valid, Faithful, RequestLine;
      var closed := Closed();
      atSend := Abs();
      if closed {
        return Some(AgentExited), atSend;
      }
      sent := sent + [request];
      var ok := channel.SendAll(RequestLine(channel.codec, request));
      return if ok then None else Some(SendFailed), atSend;
    }

    /** Put one request on the wire and take one response line off it: one call on the link. */
    method Converse(request: Request, polls: nat) returns (r: Answer<Response>, ghost ending: Ending)
      requires Valid()
      modifies this`responseBuffer, this`sent, this`answered
      modifies channel`toAgent, channel`toClient, channel`exited, channel`history, channel`polled, channel`refused
      modifies channel.agent, channel.agent.created, channel.agent.host
      ensures Valid() && fresh(set c | c in channel.agent.created && c !in old(channel.agent.created))
      ensures Call(channel.codec, old(Abs()), request, ending, Abs())
      ensures !r.Rejected? && (ending.Broken? <==> r == Raised(SendFailed))
      ensures channel.polled >= old(channel.polled) && channel.refused >= old(channel.refused)
      ensures r.Raised? ==> Excused(r.reason, polls)
      ensures if ending.Took? then r == ending.answer else NotTaken(r, ending)
    {
      hide Session, Quiet, SshChannel.Valid, Faithful, RequestLine, FirstResponse, Consumed, Submitted;
      ghost var start := Abs();
      var failure, atSend := Submit(request);
      if failure == Some(SendFailed) {
        ending := Broken;
        assert CallVia(channel.codec, start, request, ending, Abs(), start, start);
        return Raised(SendFailed), ending;
      }
      if failure == Some(AgentExited) {
        ending := Unsent;
        assert CallVia(channel.codec, start, request, ending, Abs(), start, start);
        return Raised(AgentExited), ending;
      }
      ghost var took, atRead;
      r, took, atRead := ReadResponse(polls);
      ending := if took then Took(r) else Unanswered;
      NeverRejected(channel.codec, atRead);
      assert CallVia(channel.codec, start, request, ending, Abs(), atSend, atRead);
    }

    /**
    The reason for a failure is there: the agent is known to be gone, the channel refused bytes, too much
    arrived, or the whole time was spent polling.
    */
    twostate predicate Excused(reason: Reason, polls: nat)
      reads this, channel
    {
      match reason
      case AgentExited => channel.closed || channel.exited
      case SendFailed => channel.refused > old(channel.refused)
      case TooLarge => |responseBuffer| > MAX_RESPONSE_BYTES
      case TimedOut => channel.polled == old(channel.polled) + polls
      case _ => true
    }

    /** Exactly this request was served, and its response was this refusal, or an accepted one. */
    twostate predicate Exchanged(request: Request, new refusal: Option<Response>)
      reads this, channel
    {
      && |channel.history| == |old(channel.history)| + 1
      && old(channel.history) == channel.history[..|old(channel.history)|]
      && var x := channel.history[|channel.history| - 1];
        && x.line == RequestLine(channel.codec, request) && !x.outcome.Crashed?
        && (refusal.None? <==> Accepted(x.Response())) && (refusal.Some? ==> x.Response() == refusal.value)
    }

    /**
    The agent was asked for bytes: one read of the device was made, it returned, and what it gave is what
    the client has now.
    */
    twostate predicate Asked()
      reads this, channel
    {
      && Exchanged(ReadRequest(), None)
      && var x := channel.history[|channel.history| - 1];
        && x.Continues() && x.effect.given == serialBuffer
        && x.effect.calls == [ReadFrom(READ_SIZE, Finite(READ_TIMEOUT), Done(serialBuffer))]
    }

    /** The last line served. */
    ghost function Last(): Exchange
      requires channel.history != []
      reads this, channel
    {
      channel.history[|channel.history| - 1]
    }

    /** What a request has done; in step or at least with the queue in order, whose answer it got. */
    twostate predicate Requested(request: Request, polls: nat, new r: Answer<Response>, new ending: Ending)
      reads this, channel
    {
      && channel.polled >= old(channel.polled) && channel.refused >= old(channel.refused)
      && (r.Raised? ==> Excused(r.reason, polls))
      && Call(channel.codec, old(Abs()), request, ending, Abs())
      && (r.Got? ==> Accepted(r.value)) && (r.Rejected? ==> !Accepted(r.response))
      && Reports(r, ending) && (ending.Broken? <==> r == Raised(SendFailed))
      && (old(Queued(channel.codec, Abs())) ==> KeepsQueue(r, ending))
      && (old(InStep()) && !r.Raised? ==> Answered(request, r))
      && (old(InStep()) && r.Raised? ==> r.reason in {AgentExited, SendFailed, TooLarge, TimedOut})
    }

    /** The queue is kept, and the answer is that of the request that was the oldest in it. */
    twostate predicate KeepsQueue(new r: Answer<Response>, new ending: Ending)
      reads this, channel
    {
      && (ending.Took? ==> CarriesAt(r, channel.history, |old(answered)|))
      && (!ending.Broken? ==> Queued(channel.codec, Abs()))
    }

    /** The last exchange answered this request, and nothing is outstanding. */
    twostate predicate Answered(request: Request, new r: Answer<Response>)
      reads this, channel
    {
      && Queued(channel.codec, Abs()) && |answered| == |sent|
      && |channel.history| == |old(channel.history)| + 1
      && old(channel.history) == channel.history[..|old(channel.history)|]
      && channel.history[|channel.history| - 1].line == RequestLine(channel.codec, request)
      && Carries(r, channel.history[|channel.history| - 1])
      && Answers(channel.codec, channel.history[|channel.history| - 1])
    }

    /**
    Send one request and consume one response line. In step, a value or a structured error means that
    the client is still in step, one request and its own response further; nothing else was consumed.
    Out of step, the response is that of the oldest outstanding request, and the queue is kept.
    */
    method Request(operation: string, values: Fields, polls: nat, ghost request: Request)
      returns (r: Answer<Response>, ghost ending: Ending)
      requires Valid()
      requires request == map["version" := Int(1), "operation" := Str(operation)] + values
      modifies this`responseBuffer, this`sent, this`answered
      modifies channel`toAgent, channel`toClient, channel`exited, channel`history, channel`polled, channel`refused
      modifies channel.agent, channel.agent.created, channel.agent.host
      ensures Valid() && fresh(set c | c in channel.agent.created && c !in old(channel.agent.created))
      ensures Requested(request, polls, r, ending)
    {
      hide Session, SshChannel.Valid, Queued, Call, Faithful, RequestLine, Answers, IsAnswer, TotalGiven;
      ghost var start := Abs();
      var taken;
      taken, ending := Converse(map["version" := Int(1), "operation" := Str(operation)] + values, polls);
      if old(Queued(channel.codec, Abs())) && !ending.Broken? {
        AnswerOfCall(channel.codec, start, request, ending, Abs());
      }
      if taken.Raised? {
        return taken, ending;
      }
      r := Verdict(taken.value);
    }

    /** A normal return in step means that the device took exactly s, after all it took before. */
    method SendAll(s: seq<byte>, polls: nat) returns (r: Answer<()>)
      requires Valid()
      modifies this`responseBuffer, this`sent, this`answered
      modifies channel`toAgent, channel`toClient, channel`exited, channel`history, channel`polled, channel`refused
      modifies channel.agent, channel.agent.created, channel.agent.host
      ensures Valid() && fresh(set c | c in channel.agent.created && c !in old(channel.agent.created))
      ensures channel.polled >= old(channel.polled) && channel.refused >= old(channel.refused)
      ensures r.Raised? ==> Excused(r.reason, polls)
      ensures old(InStep()) && r.Raised? ==> r.reason in {AgentExited, SendFailed, TooLarge, TimedOut, PartialWrite}
      ensures old(InStep()) && (!r.Raised? || r.reason == PartialWrite) ==>
        InStep() && Accounted() && Exchanged(WriteRequest(Base64.Encode(s)), RefusalOf(r))
      ensures old(InStep()) && r == Raised(PartialWrite) ==>
        channel.history != [] && |Last().effect.taken| < |s|
      ensures old(InStep()) && r.Got? ==>
        && |channel.history| == |old(channel.history)| + 1
        && Running(channel.history) && Last().effect.taken == s
        && NewestTook(channel.agent.Devices()) == old(NewestTook(channel.agent.Devices())) + s
    {
      hide Answers, Session, SshChannel.Valid, SerialAgent.Valid, SerialAgent.Devices, Faithful, Queued, Call;
      hide TotalGiven, NewestTook, DevicesOf, Exchange.Response, Base64.Encode, Base64.DecodeStrict;
      AgentDevices(channel);
      ghost var start := Abs();
      var encoded := Base64.Encode(s);
      ghost var request := WriteRequest(encoded);
      var answer, _ := Request("write", map["data" := Str(encoded)], polls, request);
      AgentDevices(channel);
      if answer.Raised? {
        return Raised(answer.reason);
      }
      var response := if answer.Got? then answer.value else answer.response;
      if old(InStep()) {
        GivesNothing(channel.codec, start, request, Abs());
      }
      if answer.Rejected? {
        return Rejected(response);
      }
      if Get(response, "written") != Int(|s|) {
        if old(InStep()) {
          PartlyAcknowledged(channel.codec, channel.history[|channel.history| - 1], s);
        }
        return Raised(PartialWrite);
      }
      if old(InStep()) {
        WriteAcknowledged(channel.codec, channel.history[|channel.history| - 1], s);
      }
      return Got(());
    }

    /** Ask the agent for device bytes unless some are buffered; in step, none is lost or invented. */
    method RecvReady(polls: nat) returns (r: Answer<bool>)
      requires Valid()
      modifies this`serialBuffer, this`asks
      modifies this`responseBuffer, this`sent, this`answered
      modifies channel`toAgent, channel`toClient, channel`exited, channel`history, channel`polled, channel`refused
      modifies channel.agent, channel.agent.created, channel.agent.host
      ensures Valid() && fresh(set c | c in channel.agent.created && c !in old(channel.agent.created))
      ensures received == old(received) && discarded == old(discarded) && asks == old(asks) + 1
      ensures channel.polled >= old(channel.polled) && channel.refused >= old(channel.refused)
      ensures r.Raised? ==> Excused(r.reason, polls)
      ensures old(InStep()) && old(serialBuffer) != [] ==>
        r == Got(true) && channel.history == old(channel.history) && serialBuffer == old(serialBuffer)
      ensures old(InStep()) && old(serialBuffer) == [] && r.Got? ==>
        || Asked()
        || (r == Got(false) && channel.history == old(channel.history)
            && (channel.closed || !Running(channel.history)))
      ensures old(InStep()) && r.Rejected? ==> Exchanged(ReadRequest(), RefusalOf(r))
      ensures old(InStep()) && !r.Raised? ==> InStep() && Accounted() && old(serialBuffer) <= serialBuffer
      ensures old(InStep()) && r.Got? ==>
        NewestTook(channel.agent.Devices()) == old(NewestTook(channel.agent.Devices()))
      ensures old(InStep()) && r.Raised? ==> r.reason in {AgentExited, SendFailed, TooLarge, TimedOut}
      ensures r.Got? ==> r.value == (serialBuffer != [])
    {
      hide Answers, Session, SshChannel.Valid, SerialAgent.Valid, SerialAgent.Devices, Faithful, Queued, Call;
      hide TotalGiven, NewestTook, DevicesOf, Exchange.Response, Base64.Encode, Base64.DecodeStrict;
      AgentDevices(channel);
      asks := asks + 1;
      if serialBuffer != [] {
        return Got(true);
      }
      ghost var start := Abs();
      var closed := Closed();
      AgentDevices(channel);
      if old(InStep()) {
        StaysInStep(channel.codec, start, Abs());
      }
      if closed {
        ExitedIs(channel);
        return Got(false);
      }
      r := ReadMore(polls);
    }

    /** Move what one read request brings to the local buffer. */
    method ReadMore(polls: nat) returns (r: Answer<bool>)
      requires Valid() && serialBuffer == []
      modifies this`serialBuffer
      modifies this`responseBuffer, this`sent, this`answered
      modifies channel`toAgent, channel`toClient, channel`exited, channel`history, channel`polled, channel`refused
      modifies channel.agent, channel.agent.created, channel.agent.host
      ensures Valid() && fresh(set c | c in channel.agent.created && c !in old(channel.agent.created))
      ensures channel.polled >= old(channel.polled) && channel.refused >= old(channel.refused)
      ensures r.Raised? ==> Excused(r.reason, polls)
      ensures old(InStep()) && !r.Raised? ==> InStep() && Accounted() && Exchanged(ReadRequest(), RefusalOf(r))
      ensures old(InStep()) && r.Got? ==>
        Asked() && NewestTook(channel.agent.Devices()) == old(NewestTook(channel.agent.Devices()))
      ensures old(InStep()) && r.Raised? ==> r.reason in {AgentExited, SendFailed, TooLarge, TimedOut}
      ensures r.Got? ==> r.value == (serialBuffer != [])
    {
      hide Answers, Session, SshChannel.Valid, SerialAgent.Valid, SerialAgent.Devices, Faithful, Queued, Call;
      hide TotalGiven, NewestTook, DevicesOf, Exchange.Response, Base64.Encode, Base64.DecodeStrict;
      hide Accepted, KeepsQueue, Reports, ReadRequest;
      AgentDevices(channel);
      ghost var start := Abs();
      ghost var request := ReadRequest();
      ReadRequestIs();
      var answer, _ := Request("read",
        map["size" := Int(READ_SIZE), "timeout" := Number(Finite(READ_TIMEOUT))], polls, request);
      AgentDevices(channel);
      if answer.Raised? {
        return Raised(answer.reason);
      }
      if old(InStep()) {
        ReadGives(channel.codec, start, Abs());
      }
      if answer.Rejected? {
        return Rejected(answer.response);
      }
      match Get(answer.value, "data") {
        case Str(encoded) =>
          var data := Base64.DecodeStrict(encoded);
          if data.None? {
            return Raised(InvalidData);
          }
          serialBuffer := serialBuffer + data.value;
          assert serialBuffer == data.value;
        case _ =>
          return Raised(InvalidData);
      }
      return Got(serialBuffer != []);
    }

    /** Take bytes from the local buffer, oldest first. */
    method Recv(nbytes: nat) returns (result: seq<byte>)
      requires Valid()
      modifies this`serialBuffer, this`received
      ensures Valid()
      ensures old(InStep()) ==> InStep() && Accounted()
      ensures result + serialBuffer == old(serialBuffer)
      ensures |result| == if nbytes < |old(serialBuffer)| then nbytes else |old(serialBuffer)|
      ensures received == old(received) + result
    {
      hide Answers, Session, SshChannel.Valid, SerialAgent.Valid, SerialAgent.Devices, Faithful, Queued, Call;
      hide TotalGiven, NewestTook, DevicesOf, Exchange.Response, Base64.Encode, Base64.DecodeStrict;
      AgentDevices(channel);
      var size := if nbytes < |serialBuffer| then nbytes else |serialBuffer|;
      result := serialBuffer[..size];
      ghost var all := discarded + received + serialBuffer;
      serialBuffer := serialBuffer[size..];
      received := received + result;
      assert discarded + received + serialBuffer == all;
    }

    /** Discard what is buffered here and what the agent's device has buffered; accounting restarts. */
    method ResetInput(polls: nat) returns (r: Answer<()>)
      requires Valid()
      modifies this`serialBuffer, this`received, this`discarded
      modifies this`responseBuffer, this`sent, this`answered
      modifies channel`toAgent, channel`toClient, channel`exited, channel`history, channel`polled, channel`refused
      modifies channel.agent, channel.agent.created, channel.agent.host
      ensures Valid() && fresh(set c | c in channel.agent.created && c !in old(channel.agent.created))
      ensures serialBuffer == [] && received == []
      ensures discarded == old(TotalGiven(channel.agent.Devices()))
      ensures r.Raised? ==> Excused(r.reason, polls)
      ensures old(InStep()) && r.Raised? ==> r.reason in {AgentExited, SendFailed, TooLarge, TimedOut}
      ensures old(InStep()) && !r.Raised? ==> InStep() && Accounted() && Exchanged(ResetRequest(), RefusalOf(r))
      ensures old(InStep()) && r.Got? ==>
        && Running(channel.history) && channel.history != []
        && Last().effect.calls == [ResetInputBuffer(Done(()))]
        && NewestTook(channel.agent.Devices()) == old(NewestTook(channel.agent.Devices()))
    {
      hide Answers, Session, SshChannel.Valid, SerialAgent.Valid, SerialAgent.Devices, Faithful, Queued, Call;
      hide TotalGiven, NewestTook, DevicesOf, Exchange.Response, Base64.Encode, Base64.DecodeStrict;
      AgentDevices(channel);
      ghost var start := Abs();
      serialBuffer, received, discarded := [], [], TotalGiven(DevicesOf(channel.history));
      assert discarded + received + serialBuffer == discarded;
      ghost var request := ResetRequest();
      assert request == map["version" := Int(1), "operation" := Str("reset_input")] + map[];
      var answer, _ := Request("reset_input", map[], polls, request);
      AgentDevices(channel);
      if answer.Raised? {
        return Raised(answer.reason);
      }
      if old(InStep()) {
        GivesNothing(channel.codec, start, request, Abs());
        if answer.Got? {
          ResetAnswered(channel.codec, channel.history[|channel.history| - 1], request);
          assert old(NewestTook(channel.agent.Devices())) + [] == old(NewestTook(channel.agent.Devices()));
        }
      }
      return if answer.Rejected? then Rejected(answer.response) else Got(());
    }

    /** Verify the protocol and return the agent's version. */
    method Negotiate(polls: nat) returns (r: Answer<string>)
      requires Valid()
      modifies this`responseBuffer, this`sent, this`answered
      modifies channel`toAgent, channel`toClient, channel`exited, channel`history, channel`polled, channel`refused
      modifies channel.agent, channel.agent.created, channel.agent.host
      ensures Valid() && fresh(set c | c in channel.agent.created && c !in old(channel.agent.created))
      ensures r.Got? ==> r.value != ""
      ensures r.Raised? ==> Excused(r.reason, polls)
      ensures old(InStep()) && r.Raised? ==> r.reason in {AgentExited, SendFailed, TooLarge, TimedOut}
      ensures old(InStep()) && !r.Raised? ==> Exchanged(HelloRequest(), RefusalOf(r))
      ensures old(InStep()) && r.Got? ==> r.value == AGENT_VERSION
    {
      hide Answers, Session, SshChannel.Valid, SerialAgent.Valid, SerialAgent.Devices, Faithful, Queued, Call;
      hide TotalGiven, NewestTook, DevicesOf, Exchange.Response, Base64.Encode, Base64.DecodeStrict;
      ghost var request := HelloRequest();
      assert request == map["version" := Int(1), "operation" := Str("hello")] + map[];
      var answer, _ := Request("hello", map[], polls, request);
      match answer
      case Raised(reason) => return Raised(reason);
      case Rejected(response) => return Rejected(response);
      case Got(response) =>
      if old(InStep()) {
        HelloAnswered(channel.codec, channel.history[|channel.history| - 1], request);
      }
      match Get(response, "agent_version")
      case Str(version) => return if version == "" then Raised(InvalidVersion) else Got(version);
      case _ => return Raised(InvalidVersion);
    }

    /** Open one device; a normal return in step means that the agent has it and nothing was written. */
    method Open(device: string, baudrate: int, polls: nat) returns (r: Answer<()>)
      requires Valid()
      modifies this`responseBuffer, this`sent, this`answered
      modifies channel`toAgent, channel`toClient, channel`exited, channel`history, channel`polled, channel`refused
      modifies channel.agent, channel.agent.created, channel.agent.host
      ensures Valid() && fresh(set c | c in channel.agent.created && c !in old(channel.agent.created))
      ensures r.Raised? ==> Excused(r.reason, polls)
      ensures old(InStep()) && r.Raised? ==> r.reason in {AgentExited, SendFailed, TooLarge, TimedOut}
      ensures old(InStep()) && !r.Raised? ==>
        InStep() && Accounted() && Exchanged(OpenRequest(device, baudrate), RefusalOf(r))
      ensures old(InStep()) && r.Got? ==>
        && channel.history != [] && !Last().before && ConnectedAfter(channel.history)
        && Last().effect.calls == [Checked(device, Done(true)), Opened(device, baudrate, Done(()))]
        && channel.agent.Devices() == old(channel.agent.Devices()) + [Device(device, baudrate, [], [])]
    {
      hide Answers, Session, SshChannel.Valid, SerialAgent.Valid, SerialAgent.Devices, Faithful, Queued, Call;
      hide TotalGiven, NewestTook, DevicesOf, Exchange.Response, Base64.Encode, Base64.DecodeStrict;
      AgentDevices(channel);
      ghost var start := Abs();
      ghost var request := OpenRequest(device, baudrate);
      var answer, _ := Request("open", map["device" := Str(device), "baudrate" := Int(baudrate)], polls, request);
      AgentDevices(channel);
      if answer.Raised? {
        return Raised(answer.reason);
      }
      if old(InStep()) {
        GivesNothing(channel.codec, start, request, Abs());
        if answer.Got? {
          OpenAnswered(channel.codec, channel.history[|channel.history| - 1], request, device, baudrate);
        }
      }
      return if answer.Rejected? then Rejected(answer.response) else Got(());
    }

    /**
    Ask the agent to stop and close the SSH channel whatever comes of that. Errors of the exchange
    itself are swallowed; a socket error while sending, or an unexpected one while reading the response, is
    raised after the channel is closed.
    */
    method Close(polls: nat) returns (raised: bool, ghost asked: Option<Ending>)
      requires Valid()
      modifies this`responseBuffer, this`sent, this`answered
      modifies channel, channel.agent, channel.agent.created, channel.agent.host
      ensures Valid() && fresh(set c | c in channel.agent.created && c !in old(channel.agent.created))
      ensures channel.closed
      ensures asked.Some? ==> Call(channel.codec, old(Abs()), CloseRequest(), asked.value, Abs())
      ensures asked.None? ==> old(channel.closed) || channel.exited
      ensures raised <==> asked in {Some(Broken), Some(Took(Raised(Unexpected)))}
    {
      hide Answers, Session, SshChannel.Valid, SerialAgent.Valid, SerialAgent.Devices, Faithful, Queued, Call;
      hide TotalGiven, NewestTook, DevicesOf, Exchange.Response, Base64.Encode, Base64.DecodeStrict, Quiet;
      raised, asked := false, None;
      ghost var start := Abs();
      var closed := Closed();
      if !closed {
        ghost var request := CloseRequest();
        assert request == map["version" := Int(1), "operation" := Str("close")] + map[];
        ghost var before := Abs();
        var answer, ending := Request("close", map[], polls, request);
        QuietThenCall(channel.codec, start, before, request, ending, Abs());
        asked := Some(ending);
        raised := answer in {Raised(SendFailed), Raised(Unexpected)};
      }
      channel.Close();
    }

    /**
    Any requests on a fresh client, whether or not the earlier ones were answered: until one of them is
    sent only in part, they are a sequence of calls on the link, of which module SerialLink says which
    answer each of them gets.
    */
    method RequestAll(asks: seq<Ask>, polls: nat)
      returns (answers: seq<Answer<Response>>, broken: bool, ghost links: seq<Link>, ghost endings: seq<Ending>)
      requires Valid() && Abs() == START
      modifies this`responseBuffer, this`sent, this`answered
      modifies channel`toAgent, channel`toClient, channel`exited, channel`history, channel`polled, channel`refused
      modifies channel.agent, channel.agent.created, channel.agent.host
      ensures Valid() && |answers| <= |asks| && (!broken ==> |answers| == |asks|)
      ensures Calls(channel.codec, links, Requests(asks[..|answers|]), endings)
      ensures !broken ==> links[|answers|] == Abs()
      ensures forall i :: 0 <= i < |answers| ==> Reports(answers[i], endings[i])
    {
      hide Session, SshChannel.Valid, Faithful, Call, Queued, Reports, RequestOf;
      answers, broken, links, endings := [], false, [Abs()], [];
      while |answers| < |asks|
        invariant |answers| <= |asks| && !broken && Valid()
        invariant fresh(set c | c in channel.agent.created && c !in old(channel.agent.created))
        invariant Calls(channel.codec, links, Requests(asks[..|answers|]), endings) && links[|answers|] == Abs()
        invariant forall i :: 0 <= i < |answers| ==> Reports(answers[i], endings[i])
        decreases |asks| - |answers|
      {
        var ask := asks[|answers|];
        ghost var request := RequestOf(ask);
        RequestIs(ask);
        var answer, ending := Request(ask.operation, ask.values, polls, request);
        if answer == Raised(SendFailed) {
          broken := true;
          return;
        }
        CallsGrow(channel.codec, links, asks, |answers|, endings, ending, Abs());
        links, endings, answers := links + [Abs()], endings + [ending], answers + [answer];
      }
    }

    /**
    One call of a program has returned normally. The device took its payload; what the devices gave
    meanwhile is returned, is buffered, or was there before; and unless the agent is gone, exactly the
    requests that the call needs were served.
    */
    twostate predicate Performed(command: Command, new result: seq<byte>, new given: seq<byte>)
      reads this, channel, channel.agent, channel.agent.created, channel.agent.host
    {
      && InStep() && Accounted()
      && NewestTook(channel.agent.Devices()) == old(NewestTook(channel.agent.Devices())) + PayloadOf(command)
      && TotalGiven(channel.agent.Devices()) == old(TotalGiven(channel.agent.Devices())) + given
      && (!command.Ready? ==> given == [])
      && (old(Running(channel.history)) && !channel.closed ==>
            && Running(channel.history)
            && Serves(channel.codec, old(channel.history), channel.history, RequestsOf(command, old(serialBuffer))))
      && result == ResultOf(command, old(serialBuffer))
      && serialBuffer == BufferStep(command, old(serialBuffer), given)
    }

    /** One call of a program; a call that does not return normally ends the program. */
    method Perform(command: Command, polls: nat)
      returns (failed: bool, result: seq<byte>, ghost given: seq<byte>)
      requires Valid() && InStep()
      modifies this
      modifies channel`toAgent, channel`toClient, channel`exited, channel`history, channel`polled, channel`refused
      modifies channel.agent, channel.agent.created, channel.agent.host
      ensures Valid() && fresh(set c | c in channel.agent.created && c !in old(channel.agent.created))
      ensures !failed ==> Performed(command, result, given)
    {
      hide *;
      failed, result, given := false, [], [];
      match command
      case Send(s) => failed := PerformSend(s, polls);
      case Ready => failed, given := PerformReady(polls);
      case Receive(n) => result := PerformReceive(n);
      case Reset => failed := PerformReset(polls);
    }

    method PerformSend(s: seq<byte>, polls: nat) returns (failed: bool)
      requires Valid() && InStep()
      modifies this
      modifies channel`toAgent, channel`toClient, channel`exited, channel`history, channel`polled, channel`refused
      modifies channel.agent, channel.agent.created, channel.agent.host
      ensures Valid() && fresh(set c | c in channel.agent.created && c !in old(channel.agent.created))
      ensures !failed ==> Performed(Send(s), [], [])
    {
      hide Answers, Session, SshChannel.Valid, SerialAgent.Valid, SerialAgent.Devices, Faithful, Queued, Quiet;
      hide TotalGiven, NewestTook, DevicesOf, RequestLine, RequestLines, Lines, Running, Base64.Encode;
      AccountsAre(this);
      ghost var total, before := TotalGiven(channel.agent.Devices()), channel.history;
      assert total + [] == total;
      var r := SendAll(s, polls);
      failed := !r.Got?;
      if !failed {
        AccountsAre(this);
        ServesOne(channel.codec, before, channel.history, WriteRequest(Base64.Encode(s)));
      }
    }

    method PerformReady(polls: nat) returns (failed: bool, ghost given: seq<byte>)
      requires Valid() && InStep()
      modifies this
      modifies channel`toAgent, channel`toClient, channel`exited, channel`history, channel`polled, channel`refused
      modifies channel.agent, channel.agent.created, channel.agent.host
      ensures Valid() && fresh(set c | c in channel.agent.created && c !in old(channel.agent.created))
      ensures !failed ==> Performed(Ready, [], given)
    {
      hide Answers, Session, SshChannel.Valid, SerialAgent.Valid, SerialAgent.Devices, Faithful, Queued, Quiet;
      hide TotalGiven, NewestTook, DevicesOf, RequestLine, RequestLines, Lines, Base64.Encode;
      AccountsAre(this);
      ghost var took, buffer, before := NewestTook(channel.agent.Devices()), serialBuffer, channel.history;
      assert took + [] == took;
      var r := RecvReady(polls);
      failed, given := !r.Got?, [];
      if !failed {
        given := serialBuffer[|buffer|..];
        AccountsAre(this);
        assert serialBuffer == buffer + given;
        assert discarded + received + (buffer + given) == discarded + received + buffer + given;
        ServesNone(channel.codec, before);
        if channel.history != before {
          ServesOne(channel.codec, before, channel.history, ReadRequest());
        }
      }
    }

    method PerformReceive(n: nat) returns (result: seq<byte>)
      requires Valid() && InStep()
      modifies this
      ensures Valid() && Performed(Receive(n), result, [])
    {
      hide Answers, Session, SshChannel.Valid, SerialAgent.Valid, SerialAgent.Devices, Faithful, Queued, Quiet;
      hide TotalGiven, NewestTook, DevicesOf, RequestLine, RequestLines, Lines, Running, Base64.Encode;
      AccountsAre(this);
      ghost var devices, buffer := channel.agent.Devices(), serialBuffer;
      assert NewestTook(devices) + [] == NewestTook(devices) && TotalGiven(devices) + [] == TotalGiven(devices);
      result := Recv(n);
      FirstBytes(result, serialBuffer, buffer, n);
      ServesNone(channel.codec, channel.history);
    }

    method PerformReset(polls: nat) returns (failed: bool)
      requires Valid() && InStep()
      modifies this
      modifies channel`toAgent, channel`toClient, channel`exited, channel`history, channel`polled, channel`refused
      modifies channel.agent, channel.agent.created, channel.agent.host
      ensures Valid() && fresh(set c | c in channel.agent.created && c !in old(channel.agent.created))
      ensures !failed ==> Performed(Reset, [], [])
    {
      hide Answers, Session, SshChannel.Valid, SerialAgent.Valid, SerialAgent.Devices, Faithful, Queued, Quiet;
      hide TotalGiven, NewestTook, DevicesOf, RequestLine, RequestLines, Lines, Running, Base64.Encode;
      AccountsAre(this);
      ghost var devices, before := channel.agent.Devices(), channel.history;
      assert NewestTook(devices) + [] == NewestTook(devices) && TotalGiven(devices) + [] == TotalGiven(devices);
      var r := ResetInput(polls);
      failed := !r.Got?;
      if !failed {
        AccountsAre(this);
        assert discarded + [] + [] == discarded;
        ServesOne(channel.codec, before, channel.history, ResetRequest());
      }
    }

    /**
    Any program over the channel, as long as every call so far consumed its own response. The device has
    taken exactly the payloads sent, in order and once each, after whatever it took before. There are
    bytes that the devices gave during each call, all that they gave, and the results are what these
    calls return of them. With the agent there at the start, it has served exactly the requests that the
    calls need, a read for every poll with nothing buffered among them.
    */
    method Drive(script: seq<Command>, polls: nat) returns (failed: bool, results: seq<seq<byte>>)
      requires Valid() && InStep()
      modifies this
      modifies channel`toAgent, channel`toClient, channel`exited, channel`history, channel`polled, channel`refused
      modifies channel.agent, channel.agent.created, channel.agent.host
      ensures Valid()
      ensures !failed ==> InStep() && Accounted()
      ensures !failed ==>
        NewestTook(channel.agent.Devices()) == old(NewestTook(channel.agent.Devices())) + Payloads(script)
      ensures !failed ==> exists given ::
        && Reads(script, given, old(serialBuffer), results)
        && serialBuffer == BufferAfter(script, given, old(serialBuffer))
        && TotalGiven(channel.agent.Devices()) == old(TotalGiven(channel.agent.Devices())) + Flatten(given)
        && (old(Running(channel.history)) && !channel.closed ==>
              Serves(channel.codec, old(channel.history), channel.history,
                AllRequests(script, given, old(serialBuffer))))
    {
      hide *;
      ghost var devices, buffer, before := channel.agent.Devices(), serialBuffer, channel.history;
      ghost var took, total, there := NewestTook(devices), TotalGiven(devices), Running(before) && !channel.closed;
      ghost var given: seq<seq<byte>> := [];
      AccountsAgree(this);
      ReadsNil(buffer);
      NoRequests(buffer);
      ServesNone(channel.codec, before);
      failed, results := false, [];
      var i := 0;
      assert script[..0] == [] && took + [] == took && total + [] == total;
      while i < |script|
        invariant 0 <= i <= |script| && Valid()
        invariant fresh(set c | c in channel.agent.created && c !in old(channel.agent.created))
        invariant InStep() && Accounted()
        invariant NewestTook(channel.agent.Devices()) == took + Payloads(script[..i])
        invariant TotalGiven(channel.agent.Devices()) == total + Flatten(given)
        invariant |given| == i && Reads(script[..i], given, buffer, results)
        invariant serialBuffer == BufferAfter(script[..i], given, buffer)
        invariant there ==> Running(channel.history)
        invariant there ==> Serves(channel.codec, before, channel.history, AllRequests(script[..i], given, buffer))
      {
        ghost var earlier, kept := channel.history, serialBuffer;
        ghost var tookSoFar, givenSoFar := NewestTook(channel.agent.Devices()), TotalGiven(channel.agent.Devices());
        var result;
        ghost var more;
        failed, result, more := Step(script[i], polls);
        if failed {
          return;
        }
        ReadsSnoc(script[..i], given, buffer, results, script[i], more);
        RequestsSnoc(script[..i], given, buffer, script[i], more);
        if there {
          ServesThen(channel.codec, before, earlier, channel.history, AllRequests(script[..i], given, buffer),
            RequestsOf(script[i], kept));
        }
        assert script[..i + 1] == script[..i] + [script[i]];
        ghost var payloads, payload := Payloads(script[..i]), PayloadOf(script[i]);
        assert took + (payloads + payload) == took + payloads + payload;
        assert total + (Flatten(given) + more) == total + Flatten(given) + more;
        results, given := results + [result], given + [more];
        i := i + 1;
      }
      assert script[..i] == script;
    }

    /** Perform, with what it has done spelled out. */
    method Step(command: Command, polls: nat) returns (failed: bool, result: seq<byte>, ghost given: seq<byte>)
      requires Valid() && InStep()
      modifies this
      modifies channel`toAgent, channel`toClient, channel`exited, channel`history, channel`polled, channel`refused
      modifies channel.agent, channel.agent.created, channel.agent.host
      ensures Valid() && fresh(set c | c in channel.agent.created && c !in old(channel.agent.created))
      ensures !failed ==>
        && InStep() && Accounted()
        && NewestTook(channel.agent.Devices()) == old(NewestTook(channel.agent.Devices())) + PayloadOf(command)
        && TotalGiven(channel.agent.Devices()) == old(TotalGiven(channel.agent.Devices())) + given
        && (!command.Ready? ==> given == [])
        && result == ResultOf(command, old(serialBuffer))
        && serialBuffer == BufferStep(command, old(serialBuffer), given)
      ensures !failed && old(Running(channel.history)) && !channel.closed ==>
        && Running(channel.history)
        && Serves(channel.codec, old(channel.history), channel.history, RequestsOf(command, old(serialBuffer)))
    {
      hide Valid, InStep, Accounted, NewestTook, TotalGiven, PayloadOf, ResultOf, BufferStep, Running, Serves;
      failed, result, given := Perform(command, polls);
    }
  }

  /** These requests, and no others, were served in between. */
  predicate Serves(codec: Codec, before: seq<Exchange>, after: seq<Exchange>, requests: seq<Request>) {
    before <= after && Lines(after[|before|..]) == RequestLines(codec, requests)
  }

  lemma ServesNone(codec: Codec, history: seq<Exchange>)
    ensures Serves(codec, history, history, [])
  {
    assert history[|history|..] == [];
  }

  lemma ServesOne(codec: Codec, before: seq<Exchange>, after: seq<Exchange>, request: Request)
    requires |after| == |before| + 1 && before == after[..|before|]
    requires after[|before|].line == RequestLine(codec, request)
    ensures Serves(codec, before, after, [request])
  {
    hide RequestLine;
    assert after[|before|..] == [after[|before|]];
    assert RequestLines(codec, [request]) == [RequestLine(codec, request)];
  }

  lemma ServesThen(
    codec: Codec, a: seq<Exchange>, b: seq<Exchange>, c: seq<Exchange>, first: seq<Request>, second: seq<Request>
  )
    requires Serves(codec, a, b, first) && Serves(codec, b, c, second)
    ensures Serves(codec, a, c, first + second)
  {
    hide RequestLine;
    assert c[|a|..] == b[|a|..] + c[|b|..];
    LinesConcat(b[|a|..], c[|b|..]);
    assert RequestLines(codec, first + second) == RequestLines(codec, first) + RequestLines(codec, second);
  }

  /** The requests of a program, given what the devices give during each of its calls. */
  function AllRequests(script: seq<Command>, given: seq<seq<byte>>, buffer: seq<byte>): seq<Request>
    requires |script| == |given|
  {
    if script == [] then []
    else
      var n := |script| - 1;
      AllRequests(script[..n], given[..n], buffer)
      + RequestsOf(script[n], BufferAfter(script[..n], given[..n], buffer))
  }

  lemma NoRequests(buffer: seq<byte>)
    ensures AllRequests([], [], buffer) == []
  {
  }

  lemma RequestsSnoc(script: seq<Command>, given: seq<seq<byte>>, buffer: seq<byte>, command: Command, more: seq<byte>)
    requires |script| == |given|
    ensures AllRequests(script + [command], given + [more], buffer)
      == AllRequests(script, given, buffer) + RequestsOf(command, BufferAfter(script, given, buffer))
  {
    hide RequestsOf, BufferAfter;
    assert (script + [command])[..|script|] == script && (given + [more])[..|given|] == given;
  }

  lemma FirstBytes(result: seq<byte>, rest: seq<byte>, buffer: seq<byte>, n: nat)
    requires result + rest == buffer && |result| == if n < |buffer| then n else |buffer|
    ensures result == buffer[..Taken(n, buffer)] && rest == buffer[Taken(n, buffer)..]
  {
    assert buffer[..|result|] == result && buffer[|result|..] == rest;
  }

  lemma AccountsAre(client: SerialAgentChannel)
    requires client.Valid()
    ensures client.InStep() ==> client.Accounted()
    ensures client.Accounted() <==>
      TotalGiven(client.channel.agent.Devices()) == client.discarded + client.received + client.serialBuffer
  {
    hide Queued, Session, TotalGiven, DevicesOf, SerialAgent.Valid, SerialAgent.Devices;
  }

  lemma ExitedIs(channel: SshChannel)
    requires channel.Valid()
    ensures channel.exited <==> !Running(channel.history)
  {
  }

  lemma AgentDevices(channel: SshChannel)
    requires channel.Valid()
    ensures channel.agent.Devices() == DevicesOf(channel.history)
    ensures Session(channel.codec, channel.history)
  {
  }

  lemma AccountsAgree(client: SerialAgentChannel)
    requires client.Valid() && client.InStep()
    ensures client.Accounted()
  {
    hide Queued, Session, TotalGiven, DevicesOf, SerialAgent.Valid, SerialAgent.Devices;
  }

  /** A client with nothing outstanding stays so as long as it does nothing. */
  lemma StaysInStep(codec: Codec, a: Link, b: Link)
    requires Faithful(codec) && Queued(codec, a) && |a.answered| == |a.sent| && Quiet(codec, a, b)
    ensures Queued(codec, b) && b.history == a.history
  {
    hide Faithful, Session, Output, Flatten, RequestLine, IsAnswer;
    QueueQuiet(codec, a, b);
    NothingOutstanding(codec, a);
    NothingOutstanding(codec, b);
  }

  /** One more exchange that is not a read gives no bytes and takes the reported ones. */
  lemma GivesNothing(codec: Codec, a: Link, request: Request, b: Link)
    requires Faithful(codec) && Session(codec, b.history)
    requires |b.history| == |a.history| + 1 && a.history == b.history[..|a.history|]
    requires b.history[|a.history|].line == RequestLine(codec, request) && Get(request, "operation") != Str("read")
    ensures TotalGiven(DevicesOf(b.history)) == TotalGiven(DevicesOf(a.history))
    ensures var x := b.history[|a.history|];
      && x.effect.given == []
      && (x.before ==> NewestTook(DevicesOf(b.history)) == NewestTook(DevicesOf(a.history)) + x.effect.taken)
      && (!x.before && x.after ==> DevicesOf(b.history) == DevicesOf(a.history) + [Untouched(x.effect.calls)])
  {
    hide Answers, Session, RequestLine, Faithful, TotalGiven, NewestTook, DevicesOf;
    var x := b.history[|a.history|];
    assert b.history == a.history + [x];
    EarlierSession(codec, a.history, x);
    OnlyReadsGive(codec, x, request);
    Accounts(codec, a.history, x);
    DevicesSnoc(a.history, x);
    assert TotalGiven(DevicesOf(a.history)) + [] == TotalGiven(DevicesOf(a.history));
    if !x.before {
      NoDeviceNoBytes(codec, x);
    }
  }

  lemma ReadRequestIs()
    ensures ReadRequest() == map["version" := Int(1), "operation" := Str("read")]
      + map["size" := Int(READ_SIZE), "timeout" := Number(Finite(READ_TIMEOUT))]
  {
  }

  /** One more read gives exactly what its answer carries. */
  lemma ReadGives(codec: Codec, a: Link, b: Link)
    requires Faithful(codec) && Session(codec, b.history)
    requires |b.history| == |a.history| + 1 && a.history == b.history[..|a.history|]
    requires b.history[|a.history|].line == RequestLine(codec, ReadRequest())
    requires !b.history[|a.history|].outcome.Crashed?
    ensures var x := b.history[|a.history|];
      && TotalGiven(DevicesOf(b.history)) == TotalGiven(DevicesOf(a.history)) + x.effect.given
      && (Accepted(x.Response()) ==>
            && Get(x.Response(), "data").Str?
            && Base64.DecodeStrict(Get(x.Response(), "data").text) == Some(x.effect.given)
            && NewestTook(DevicesOf(b.history)) == NewestTook(DevicesOf(a.history))
            && x.Continues() && x.effect.calls == [ReadFrom(READ_SIZE, Finite(READ_TIMEOUT), Done(x.effect.given))])
      && (!Accepted(x.Response()) ==> TotalGiven(DevicesOf(b.history)) == TotalGiven(DevicesOf(a.history)))
  {
    hide *;
    var x := b.history[|a.history|];
    assert b.history == a.history + [x];
    ReadAccounted(codec, a.history, x);
    EarlierSession(codec, a.history, x);
    ReadAnswered(codec, x);
    Accounts(codec, a.history, x);
    assert TotalGiven(DevicesOf(a.history)) + [] == TotalGiven(DevicesOf(a.history));
  }

  /** The value or the structured error is the response of this exchange. */
  predicate Carries(r: Answer<Response>, x: Exchange) {
    match r
    case Got(response) => IsAnswer(x, response)
    case Rejected(response) => IsAnswer(x, response)
    case Raised(_) => false
  }

  predicate CarriesAt(r: Answer<Response>, history: seq<Exchange>, k: nat) {
    k < |history| && Carries(r, history[k])
  }

  /**
  What a caller can tell from the answer: a value or a structured error is the response that the call
  took; and a call that took none raises for the reason it took none.
  */
  predicate Reports(r: Answer<Response>, ending: Ending) {
    && (r.Got? ==> ending == Took(Got(r.value)) && Accepted(r.value) && EqualsOne(Get(r.value, "version")))
    && (r.Rejected? ==>
          && ending == Took(Got(r.response)) && !Accepted(r.response) && EqualsOne(Get(r.response, "version")))
    && (ending.Took? && ending.answer.Got? && r.Raised? ==>
          r.reason == UnsupportedVersion && !EqualsOne(Get(ending.answer.value, "version")))
    && (ending.Took? ==> !ending.answer.Rejected? && (ending.answer.Raised? ==> r == ending.answer))
    && (!ending.Took? ==> NotTaken(r, ending))
  }

  /**
  Read off the answers alone: when every earlier answer was a value or a structured error, a later one
  that is either is the response to its own request.
  */
  lemma OwnAnswerFromAnswers(
    codec: Codec, links: seq<Link>, requests: seq<Request>, endings: seq<Ending>, answers: seq<Answer<Response>>, i: nat
  )
    requires Faithful(codec) && Calls(codec, links, requests, endings) && |answers| == |requests|
    requires forall j :: 0 <= j < |answers| ==> Reports(answers[j], endings[j])
    requires i < |answers| && forall j :: 0 <= j <= i ==> !answers[j].Raised?
    ensures |links[i].answered| == |links[i].sent| == i
    ensures
      var after := links[i + 1];
      && i < |after.sent| && after.sent[i] == requests[i] && i < |after.history|
      && after.history[i].line == RequestLine(codec, requests[i])
      && Answers(codec, after.history[i]) && Carries(answers[i], after.history[i])
  {
    hide Call, Faithful, Answers, RequestLine;
    forall j | 0 <= j <= i
      ensures endings[j].Took?
    {
      assert Reports(answers[j], endings[j]);
    }
    assert Reports(answers[i], endings[i]);
    OwnAnswerExactlyWhenNoneLost(codec, links, requests, endings, i);
    AllTaken(codec, links, requests, endings, i);
  }

  lemma {:induction false} AllTaken(
    codec: Codec, links: seq<Link>, requests: seq<Request>, endings: seq<Ending>, i: nat
  )
    requires Faithful(codec) && Calls(codec, links, requests, endings) && i <= |requests|
    requires forall j :: 0 <= j < i ==> endings[j].Took?
    ensures |links[i].sent| == i
  {
    hide Call, Faithful, Queued;
    if i > 0 {
      AllTaken(codec, links, requests, endings, i - 1);
      AnswersLagBehind(codec, links, requests, endings, i - 1);
      CallKeepsQueue(codec, links[i - 1], requests[i - 1], endings[i - 1], links[i]);
    }
  }

  /** The buffer grows beyond the limit only in the moment in which that is noticed. */
  predicate Fits(before: seq<byte>, now: seq<byte>) {
    |now| <= MAX_RESPONSE_BYTES || now == before
  }

  /** A line that is complete became so with the last chunk. */
  ghost predicate OnlyNewlyComplete(buffer: seq<byte>) {
    exists k: nat :: k <= |buffer| && SeenWithoutLine(buffer, k)
  }

  predicate SeenWithoutLine(buffer: seq<byte>, k: nat)
    requires k <= |buffer|
  {
    NEWLINE !in buffer[..k] && |buffer| <= k + READ_SIZE
  }

  lemma NoNewline(buffer: seq<byte>)
    ensures IndexOf(buffer, NEWLINE) == |buffer| ==> NEWLINE !in buffer
  {
  }

  lemma NewlyComplete(before: seq<byte>, now: seq<byte>)
    requires before <= now && |now| <= |before| + READ_SIZE
    ensures NEWLINE !in before ==> OnlyNewlyComplete(now)
  {
    if NEWLINE !in before {
      assert now[..|before|] == before;
      assert SeenWithoutLine(now, |before|);
    }
  }

  function RefusalOf<T>(r: Answer<T>): Option<Response> {
    if r.Rejected? then Some(r.response) else None
  }

  /** Why no response was taken. */
  predicate NotTaken(r: Answer<Response>, ending: Ending) {
    match ending
    case Unsent => r == Raised(AgentExited)
    case Broken => r == Raised(SendFailed)
    case Unanswered => r in {Raised(TooLarge), Raised(AgentExited), Raised(TimedOut)}
    case Took(_) => false
  }

  lemma NeverRejected(codec: Codec, l: Link)
    ensures var r := FirstResponse(codec, l);
      !r.Rejected? && (r.Raised? ==> r.reason in {InvalidJson, NotAnObject, Unexpected})
  {
  }

  lemma StartOfRead(channel: SshChannel, l: Link)
    requires channel.Valid() && l.history == channel.history
    ensures Quiet(channel.codec, l, l)
  {
    hide Quiet, Session;
    QuietReflexive(channel.codec, l);
  }

  /** The checks on a response: its version, and whether it is an error. */
  function Verdict(response: Response): Answer<Response> {
    if !EqualsOne(Get(response, "version")) then Raised(UnsupportedVersion)
    else if Get(response, "ok") != Bool(true) then Rejected(response)
    else Got(response)
  }

  /** The text of the error that a rejected operation raises; the operation's name comes quoted. */
  function ErrorMessage(response: Response, quoted: string): string {
    var error := Get(response, "error");
    if error.Obj? && Get(error.fields, "code").Str? && Get(error.fields, "message").Str? then
      "Serial agent " + Get(error.fields, "code").text + " during " + quoted + ": " + Get(error.fields, "message").text
    else "Serial agent rejected operation " + quoted
  }

  /** A failure of the agent reaches the caller of the client with its code and its message. */
  lemma ErrorReachesCaller(x: Exchange, quoted: string)
    requires x.outcome.Failed?
    ensures Verdict(x.Response()) == Rejected(x.Response())
    ensures ErrorMessage(x.Response(), quoted)
      == "Serial agent " + x.outcome.error.code + " during " + quoted + ": " + x.outcome.error.message
  {
    var error := x.outcome.error;
    FailureIs(error);
    assert x.Response() == Failure(error);
    assert Get(x.Response(), "error") == x.Response()["error"];
  }

  /** What a call on a queued link gives. */
  lemma AnswerOfCall(codec: Codec, a: Link, request: Request, ending: Ending, b: Link)
    requires Faithful(codec) && Queued(codec, a) && Call(codec, a, request, ending, b) && ending != Broken
    ensures Queued(codec, b)
    ensures ending.Took? ==>
      && |a.answered| < |b.history| && ending.answer.Got?
      && IsAnswer(b.history[|a.answered|], ending.answer.value)
      && !Verdict(ending.answer.value).Raised?
    ensures ending.Took? && |a.answered| == |a.sent| ==>
      && |b.answered| == |b.sent| == |b.history| == |a.history| + 1
      && a.history == b.history[..|a.history|]
      && b.history[|a.history|].line == RequestLine(codec, request)
      && IsAnswer(b.history[|a.history|], ending.answer.value)
      && Answers(codec, b.history[|a.history|])
  {
    hide Call, Answers, Faithful, RequestLine, Output, Flatten;
    CallKeepsQueue(codec, a, request, ending, b);
    if ending.Took? {
      VersionOfResponse(codec, b.history[|a.answered|]);
      if |a.answered| == |a.sent| {
        NothingOutstanding(codec, a);
        NothingOutstanding(codec, b);
      }
    }
  }

  /** Every response the agent writes, of whatever kind, carries the version the client expects. */
  lemma VersionOfResponse(codec: Codec, x: Exchange)
    requires Answers(codec, x) && !x.outcome.Crashed?
    ensures EqualsOne(Get(x.Response(), "version"))
  {
    if |x.line| <= MAX_JSON_LINE_BYTES && x.outcome.Reply? {
      var request := DecodeRequest(codec, x.line).value;
      var action := Validate(request, x.before).value;
      assert Permits(action, x.before, x.outcome, x.effect, x.after);
    }
  }
}
