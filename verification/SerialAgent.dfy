/**
The remote agent: one serial device at most, opened, used and closed by validated requests. The host and
its devices are nondeterministic: a check, an open, a read, a write, a reset or a close may fail, a
write may take fewer bytes than it was given, and a read may give fewer than it was asked for. Every call
is recorded with its result.
*/
module SerialAgent {
  import opened Sequences
  import opened Json
  import opened AgentProtocol
  import Base64

  /** The result of an I/O call: a value, SerialException or OSError, or another exception. */
  datatype Io<+T> = Done(value: T) | IoFault | OtherFault

  datatype HostCall =
    | Checked(path: string, isCharDevice: Io<bool>)
    | Opened(path: string, baudrate: int, opening: Io<()>)
    | Wrote(data: seq<byte>, count: Io<Option<nat>>)
    | ReadFrom(size: nat, timeout: Float, bytes: Io<seq<byte>>)
    | ResetInputBuffer(reset: Io<()>)
    | ResetOutputBuffer(reset: Io<()>)
    | ClosedDevice(closed: Io<()>)

  /** The machine that the agent runs on, with the calls made to it and its devices. */
  class Host {
    ghost var calls: seq<HostCall>

    constructor ()
      ensures calls == []
    {
      calls := [];
    }

    method IsCharDevice(path: string) returns (r: Io<bool>)
      modifies this
      ensures calls == old(calls) + [Checked(path, r)]
    {
      r := *;
      calls := calls + [Checked(path, r)];
    }

    /** Open a device; the connection is there only when nothing was raised. */
    method Open(path: string, baudrate: int) returns (r: Io<()>, connection: SerialConnection?)
      modifies this
      ensures calls == old(calls) + [Opened(path, baudrate, r)]
      ensures r.Done? ==>
        && connection != null && fresh(connection) && connection.host == this
        && connection.port == path && connection.baudrate == baudrate
        && connection.taken == [] && connection.given == [] && connection.closeCalls == 0
    {
      r, connection := *, null;
      if r.Done? {
        connection := new SerialConnection(this, path, baudrate);
      }
      calls := calls + [Opened(path, baudrate, r)];
    }
  }

  /** One device opened by the agent, with what it took, what it gave and how often it was closed. */
  class SerialConnection {
    const host: Host
    const port: string
    const baudrate: int
    var timeout: Float
    ghost var taken: seq<byte>
    ghost var given: seq<byte>
    ghost var closeCalls: nat

    constructor (host: Host, port: string, baudrate: int)
      ensures this.host == host && this.port == port && this.baudrate == baudrate
      ensures taken == [] && given == [] && closeCalls == 0
    {
      this.host, this.port, this.baudrate := host, port, baudrate;
      timeout := Finite(0);
      taken, given, closeCalls := [], [], 0;
    }

    /** The count of bytes taken is reported, or None when all were; a fault may take some. */
    method Write(data: seq<byte>) returns (r: Io<Option<nat>>)
      requires closeCalls == 0
      modifies this`taken, host
      ensures host.calls == old(host.calls) + [Wrote(data, r)]
      ensures exists n: nat :: n <= |data| && taken == old(taken) + data[..n]
      ensures r.Done? && r.value.Some? ==>
        r.value.value <= |data| && taken == old(taken) + data[..r.value.value]
      ensures r.Done? && r.value.None? ==> taken == old(taken) + data
    {
      var outcome: Io<bool> := *;
      assert 0 <= |data|;
      var count: nat :| count <= |data|;
      if outcome == Done(true) {
        count := |data|;
      }
      taken := taken + data[..count];
      match outcome {
        case Done(true) => r := Done(None);
        case Done(false) => r := Done(Some(count));
        case IoFault => r := IoFault;
        case OtherFault => r := OtherFault;
      }
      host.calls := host.calls + [Wrote(data, r)];
    }

    method Read(size: nat) returns (r: Io<seq<byte>>)
      requires closeCalls == 0
      modifies this`given, host
      ensures host.calls == old(host.calls) + [ReadFrom(size, timeout, r)]
      ensures r.Done? ==> |r.value| <= size && given == old(given) + r.value
      ensures !r.Done? ==> given == old(given)
    {
      var data: seq<byte> := *;
      r := *;
      if r.Done? {
        r := Done(if |data| <= size then data else data[..size]);
        given := given + r.value;
      }
      host.calls := host.calls + [ReadFrom(size, timeout, r)];
    }

    /** Either reset discards bytes that no read has returned and no write has counted. */
    method ResetInput() returns (r: Io<()>)
      requires closeCalls == 0
      modifies host
      ensures host.calls == old(host.calls) + [ResetInputBuffer(r)]
    {
      r := *;
      host.calls := host.calls + [ResetInputBuffer(r)];
    }

    method ResetOutput() returns (r: Io<()>)
      requires closeCalls == 0
      modifies host
      ensures host.calls == old(host.calls) + [ResetOutputBuffer(r)]
    {
      r := *;
      host.calls := host.calls + [ResetOutputBuffer(r)];
    }

    method Close() returns (r: Io<()>)
      modifies this`closeCalls, host
      ensures closeCalls == old(closeCalls) + 1
      ensures host.calls == old(host.calls) + [ClosedDevice(r)]
    {
      closeCalls := closeCalls + 1;
      r := *;
      host.calls := host.calls + [ClosedDevice(r)];
    }
  }

  /** What handling one request does: a response, an AgentError, or another exception. */
  datatype Outcome = Reply(response: Response, stop: bool) | Failed(error: AgentError) | Crashed

  /** The calls that one request made, and what they did to the bytes of the device. */
  datatype Effect = Effect(taken: seq<byte>, given: seq<byte>, calls: seq<HostCall>)

  const NO_EFFECT := Effect([], [], [])

  /** One opened device: where and how it was opened, and what it took and gave so far. */
  datatype Device = Device(port: string, baudrate: int, taken: seq<byte>, given: seq<byte>)

  ghost function RecordOf(created: seq<SerialConnection>): (r: seq<Device>)
    reads created
    ensures |r| == |created|
    ensures forall i :: 0 <= i < |r| ==> r[i] == DeviceOf(created[i])
  {
    seq(|created|, i requires 0 <= i < |created| reads created => DeviceOf(created[i]))
  }

  ghost function DeviceOf(c: SerialConnection): Device
    reads c
  {
    Device(c.port, c.baudrate, c.taken, c.given)
  }

  /** The device that these calls opened, with no byte moved. */
  function Untouched(calls: seq<HostCall>): Device {
    if calls != [] && calls[|calls| - 1].Opened? then
      Device(calls[|calls| - 1].path, calls[|calls| - 1].baudrate, [], [])
    else Device("", 0, [], [])
  }

  /** How one request changes the devices: an open adds one, and only the open one takes or gives. */
  function DevicesAfter(devices: seq<Device>, before: bool, e: Effect, after: bool): seq<Device> {
    var n := |devices|;
    if before && n > 0 && (e.taken != [] || e.given != []) then
      var d := devices[n - 1];
      devices[n - 1 := d.(taken := d.taken + e.taken, given := d.given + e.given)]
    else if !before && after then devices + [Untouched(e.calls)]
    else devices
  }

  lemma NewestChanges(devices: seq<Device>, now: seq<Device>, e: Effect)
    requires |now| == |devices| > 0 && forall k :: 0 <= k < |devices| - 1 ==> now[k] == devices[k]
    requires
      var d := devices[|devices| - 1];
      now[|devices| - 1] == d.(taken := d.taken + e.taken, given := d.given + e.given)
    ensures now == DevicesAfter(devices, true, e, true)
  {
    if e.taken == [] && e.given == [] {
      var d := devices[|devices| - 1];
      assert d.taken + [] == d.taken && d.given + [] == d.given;
      assert now == devices;
    }
  }

  /** An I/O fault becomes the agent's own error; any other exception ends the process. */
  function AnswerTo<T>(r: Io<T>, success: Outcome): Outcome {
    match r
    case Done(_) => success
    case IoFault => Failed(SERIAL_IO)
    case OtherFault => Crashed
  }

  function ReplyWith(values: Fields): Outcome { Reply(Success(values), false) }

  /** Exactly the calls that the action needs were made, and their results decide the outcome. */
  predicate Permits(action: Action, before: bool, o: Outcome, e: Effect, after: bool) {
    match action
    case Hello => o == ReplyWith(map["agent_version" := Str(AGENT_VERSION)]) && e == NO_EFFECT && after == before
    case Open(device, baudrate) => e.taken == [] && e.given == [] && PermitsOpen(device, baudrate, o, e.calls, after)
    case Write(payload) => e.given == [] && after && PermitsWrite(payload, o, e)
    case Read(size, timeout) => e.taken == [] && after && PermitsRead(size, timeout, o, e)
    case ResetInput =>
      && e.taken == [] && e.given == [] && after && |e.calls| == 1
      && e.calls[0].ResetInputBuffer? && o == AnswerTo(e.calls[0].reset, ReplyWith(map[]))
    case ResetOutput =>
      && e.taken == [] && e.given == [] && after && |e.calls| == 1
      && e.calls[0].ResetOutputBuffer? && o == AnswerTo(e.calls[0].reset, ReplyWith(map[]))
    case Close =>
      && e.taken == [] && e.given == [] && !after
      && PermitsClose(before, o, e.calls)
  }

  predicate PermitsOpen(device: string, baudrate: int, o: Outcome, calls: seq<HostCall>, after: bool) {
    && |calls| >= 1 && calls[0].Checked? && calls[0].path == device
    && if calls[0].isCharDevice == Done(true) then
         && |calls| == 2 && calls[1].Opened? && calls[1].path == device && calls[1].baudrate == baudrate
         && o == AnswerTo(calls[1].opening, ReplyWith(map[])) && (after <==> calls[1].opening.Done?)
       else |calls| == 1 && o == AnswerTo(calls[0].isCharDevice, Failed(NOT_CHAR_DEVICE)) && !after
  }

  predicate PermitsWrite(payload: seq<byte>, o: Outcome, e: Effect) {
    && |e.calls| == 1 && e.calls[0].Wrote? && e.calls[0].data == payload
    && var r := e.calls[0].count;
      var count := if r.Done? && r.value.Some? then r.value.value else |payload|;
      && o == AnswerTo(r, ReplyWith(map["written" := Int(count)]))
      && (if r.Done? then count <= |payload| && e.taken == payload[..count] else e.taken <= payload)
  }

  predicate PermitsRead(size: nat, timeout: Float, o: Outcome, e: Effect) {
    && |e.calls| == 1 && e.calls[0].ReadFrom? && e.calls[0].size == size && e.calls[0].timeout == timeout
    && |e.given| <= size && e.given == (if e.calls[0].bytes.Done? then e.calls[0].bytes.value else [])
    && o == AnswerTo(e.calls[0].bytes, ReplyWith(map["data" := Str(Base64.Encode(e.given))]))
  }

  predicate PermitsClose(before: bool, o: Outcome, calls: seq<HostCall>) {
    if before then
      |calls| == 1 && calls[0].ClosedDevice? && o == AnswerTo(calls[0].closed, Reply(Success(map[]), true))
    else calls == [] && o == Reply(Success(map[]), true)
  }

  /** How a call ended: it returned, or raised an I/O error, or something else. */
  datatype Ended = Fine | IoError | Other

  function EndOf<T>(r: Io<T>): Ended {
    match r case Done(_) => Fine case IoFault => IoError case OtherFault => Other
  }

  function EndOfCall(c: HostCall): Ended {
    match c
    case Checked(_, r) => EndOf(r)
    case Opened(_, _, r) => EndOf(r)
    case Wrote(_, r) => EndOf(r)
    case ReadFrom(_, _, r) => EndOf(r)
    case ResetInputBuffer(r) => EndOf(r)
    case ResetOutputBuffer(r) => EndOf(r)
    case ClosedDevice(r) => EndOf(r)
  }

  /**
  A valid request for the device is answered ok only if its last call returned, as an I/O error of the
  agent if and only if that call raised one, and not at all if and only if it raised anything else.
  */
  lemma OutcomeOfCalls(action: Action, before: bool, o: Outcome, e: Effect, after: bool)
    requires Permits(action, before, o, e, after) && !action.Hello? && (action.Close? ==> before)
    ensures e.calls != []
    ensures
      var end := EndOfCall(e.calls[|e.calls| - 1]);
      && (o.Reply? ==> end == Fine && Get(o.response, "ok") == Bool(true) && Get(o.response, "version") == Int(1))
      && (o.Failed? && o.error.code == "serial_io" <==> end == IoError)
      && (o.Crashed? <==> end == Other)
      && (o.Failed? && o.error.code != "serial_io" ==>
            && o.error.code == "invalid_device" && action.Open? && |e.calls| == 1
            && e.calls[0].Checked? && e.calls[0].path == action.device
            && e.calls[0].isCharDevice.Done? && !e.calls[0].isCharDevice.value)
    ensures o.Reply? ==> (o.stop <==> action.Close?)
    ensures
      match action
      case Write(payload) =>
        e.calls == [Wrote(payload, e.calls[0].count)] && (o.Reply? ==> Get(o.response, "written") == Int(|e.taken|))
      case Read(size, timeout) =>
        && e.calls == [ReadFrom(size, timeout, e.calls[0].bytes)]
        && (o.Reply? ==> Get(o.response, "data") == Str(Base64.Encode(e.given)))
      case ResetInput => e.calls == [ResetInputBuffer(e.calls[0].reset)]
      case ResetOutput => e.calls == [ResetOutputBuffer(e.calls[0].reset)]
      case Close => e.calls == [ClosedDevice(e.calls[0].closed)]
      case _ => true
  {
    hide Base64.Encode;
  }

  /** One handled request: rejected by validation without any effect, or a permitted action. */
  predicate Handles(request: Request, before: bool, o: Outcome, e: Effect, after: bool) {
    match Validate(request, before)
    case Err(error) => o == Failed(error) && e == NO_EFFECT && after == before
    case Crash => o == Crashed && e == NO_EFFECT && after == before
    case Ok(action) => Permits(action, before, o, e, after)
  }

  class SerialAgent {
    const host: Host
    var connection: SerialConnection?
    ghost var created: seq<SerialConnection>

    /** Every connection ever created has been closed exactly once, except the current one, the newest. */
    ghost predicate Valid()
      reads this, created
    {
      && (forall i, j :: 0 <= i < j < |created| ==> created[i] != created[j])
      && (connection != null ==>
            created != [] && connection == created[|created| - 1] && connection.closeCalls == 0)
      && (forall c :: c in created && c != connection ==> c.closeCalls == 1)
      && (forall c :: c in created ==> c.host == host)
    }

    ghost predicate Connected()
      reads this
    {
      connection != null
    }

    constructor (host: Host)
      ensures Valid() && created == [] && connection == null && !Connected() && this.host == host
      ensures Devices() == []
    {
      this.host := host;
      connection := null;
      created := [];
    }

    ghost function Devices(): seq<Device>
      reads this, created
    {
      RecordOf(created)
    }

    /** The calls are those of the effect; only the current connection changes, by its bytes; opens add one. */
    twostate predicate Affected(e: Effect)
      reads this, created, host
    {
      && host.calls == old(host.calls) + e.calls
      && old(created) <= created
      && Devices() == DevicesAfter(old(Devices()), old(Connected()), e, Connected())
      && (forall c :: c in old(created) && c != old(connection) ==> unchanged(c))
      && (old(connection) == null ==> e.taken == [] && e.given == [])
    }

    /** Close the owned device if it is open; the reference is dropped before the device is closed. */
    method Close() returns (r: Io<()>, ghost e: Effect)
      requires Valid()
      modifies this, created, host
      ensures Valid() && connection == null && created == old(created)
      ensures forall c :: c in created ==> c.closeCalls == 1
      ensures Affected(e) && e == Effect([], [], if old(connection) == null then [] else [ClosedDevice(r)])
      ensures old(connection) == null ==> r == Done(())
    {
      var current := connection;
      connection := null;
      r, e := Done(()), NO_EFFECT;
      if current != null {
        r := current.Close();
        e := Effect([], [], [ClosedDevice(r)]);
      } else {
        assert host.calls + [] == host.calls;
      }
    }

    method Open(request: Request) returns (o: Outcome, ghost e: Effect)
      requires Valid() && ValidateEnvelope(request) == Result.Ok("open")
      modifies this, created, host
      ensures Valid() && Affected(e) && fresh(set c | c in created && c !in old(created))
      ensures Handles(request, old(Connected()), o, e, Connected())
    {
      e := NO_EFFECT;
      hide ValidateDevice, DecodePayload, RequireTimeout, RequireInt, RequireString, RequireConnection, ValidateFields;
      assert host.calls + [] == host.calls;
      var fields := ValidateFields(request, {"device", "baudrate"});
      if fields.Err? { return Failed(fields.error), e; }
      if connection != null { return Failed(ALREADY_OPEN), e; }
      var text := RequireString(request, "device");
      if text.Err? { return Failed(text.error), e; }
      var device := ValidateDevice(text.value);
      if device.Err? { return Failed(device.error), e; }
      var baudrate := RequireInt(request, "baudrate", 1, 10_000_000);
      if baudrate.Err? { return Failed(baudrate.error), e; }
      o, e := OpenDevice(device.value, baudrate.value);
    }

    /** Check the path and open the device there. */
    method OpenDevice(path: string, baudrate: int) returns (o: Outcome, ghost e: Effect)
      requires Valid() && connection == null
      modifies this, host
      ensures Valid() && Affected(e) && fresh(set c | c in created && c !in old(created))
      ensures e.taken == [] && e.given == [] && PermitsOpen(path, baudrate, o, e.calls, Connected())
    {
      ghost var start := host.calls;
      var isCharDevice := host.IsCharDevice(path);
      e := Effect([], [], [Checked(path, isCharDevice)]);
      match isCharDevice
      case IoFault => return Failed(SERIAL_IO), e;
      case OtherFault => return Crashed, e;
      case Done(false) => return Failed(NOT_CHAR_DEVICE), e;
      case Done(true) =>
      var r := Connect(path, baudrate);
      e := Effect([], [], [Checked(path, isCharDevice), Opened(path, baudrate, r)]);
      assert host.calls == start + e.calls;
      match r
      case IoFault => return Failed(SERIAL_IO), e;
      case OtherFault => return Crashed, e;
      case Done(_) => return Reply(Success(map[]), false), e;
    }

    /** Open the device and keep its connection. */
    method Connect(path: string, baudrate: int) returns (r: Io<()>)
      requires Valid() && connection == null
      modifies this, host
      ensures Valid() && old(created) <= created && fresh(set c | c in created && c !in old(created))
      ensures host.calls == old(host.calls) + [Opened(path, baudrate, r)]
      ensures Connected() <==> r.Done?
      ensures Devices() == old(Devices()) + if r.Done? then [Device(path, baudrate, [], [])] else []
    {
      var device;
      r, device := host.Open(path, baudrate);
      if r.Done? {
        connection, created := device, created + [device];
        assert created[..|created| - 1] == old(created);
      } else {
        assert Devices() + [] == Devices();
      }
    }

    method Write(request: Request) returns (o: Outcome, ghost e: Effect)
      requires Valid() && ValidateEnvelope(request) == Result.Ok("write")
      modifies created, host
      ensures Valid() && Affected(e)
      ensures Handles(request, old(Connected()), o, e, Connected())
    {
      e := NO_EFFECT;
      hide DecodePayload, ValidateFields, PermitsRead, PermitsWrite, PermitsOpen;
      assert host.calls + [] == host.calls;
      var fields := ValidateFields(request, {"data"});
      if fields.Err? { return Failed(fields.error), e; }
      if connection == null { return Failed(NOT_OPEN), e; }
      var payload := DecodePayload(request);
      if payload.Err? { return Failed(payload.error), e; }
      PayloadNeverCrashes(request);
      o, e := WriteDevice(payload.value);
    }

    method WriteDevice(payload: seq<byte>) returns (o: Outcome, ghost e: Effect)
      requires Valid() && connection != null
      modifies created, host
      ensures Valid() && Affected(e) && e.given == [] && PermitsWrite(payload, o, e)
    {
      hide Valid, Affected;
      var written;
      written, e := WriteBytes(payload);
      match written
      case IoFault => return Failed(SERIAL_IO), e;
      case OtherFault => return Crashed, e;
      case Done(count) =>
      var reported := if count.None? then |payload| else count.value;
      return Reply(Success(map["written" := Int(reported)]), false), e;
    }

    method WriteBytes(data: seq<byte>) returns (r: Io<Option<nat>>, ghost e: Effect)
      requires Valid() && connection != null
      modifies created, host
      ensures Valid() && Affected(e) && e.given == [] && e.calls == [Wrote(data, r)]
      ensures
        var count := if r.Done? && r.value.Some? then r.value.value else |data|;
        if r.Done? then count <= |data| && e.taken == data[..count] else e.taken <= data
    {
      ghost var before, devices := connection.taken, Devices();
      r := connection.Write(data);
      ghost var n: nat :| n <= |data| && connection.taken == before + data[..n];
      e := Effect(data[..n], [], [Wrote(data, r)]);
      NewestChanges(devices, Devices(), e);
      if r.Done? {
        ghost var count := if r.value.Some? then r.value.value else |data|;
        assert connection.taken == before + data[..count];
        SameEnd(before, data[..n], data[..count]);
      }
    }

    method ReadBytes(timeout: Float, size: nat) returns (r: Io<seq<byte>>, ghost e: Effect)
      requires Valid() && connection != null
      modifies created, host
      ensures Valid() && Affected(e) && e == Effect([], if r.Done? then r.value else [], [ReadFrom(size, timeout, r)])
      ensures r.Done? ==> |r.value| <= size
    {
      ghost var devices := Devices();
      connection.timeout := timeout;
      r := connection.Read(size);
      e := Effect([], if r.Done? then r.value else [], [ReadFrom(size, timeout, r)]);
      assert connection.taken == connection.taken + e.taken;
      NewestChanges(devices, Devices(), e);
    }

    method Read(request: Request) returns (o: Outcome, ghost e: Effect)
      requires Valid() && ValidateEnvelope(request) == Result.Ok("read")
      modifies created, host
      ensures Valid() && Affected(e)
      ensures Handles(request, old(Connected()), o, e, Connected())
    {
      e := NO_EFFECT;
      hide ValidateFields, RequireInt, RequireTimeout, Base64.Encode, PermitsRead, PermitsWrite, PermitsOpen;
      assert host.calls + [] == host.calls;
      var fields := ValidateFields(request, {"size", "timeout"});
      if fields.Err? { return Failed(fields.error), e; }
      if connection == null { return Failed(NOT_OPEN), e; }
      var size := RequireInt(request, "size", 1, MAX_READ_BYTES);
      if size.Err? { return Failed(size.error), e; }
      IntInRange(request, "size", 1, MAX_READ_BYTES);
      var timeout := RequireTimeout(request);
      if timeout.Err? { return Failed(timeout.error), e; }
      if timeout.Crash? { return Crashed, e; }
      o, e := ReadDevice(timeout.value, size.value);
    }

    method ReadDevice(timeout: Float, size: nat) returns (o: Outcome, ghost e: Effect)
      requires Valid() && connection != null
      modifies created, host
      ensures Valid() && Affected(e) && e.taken == [] && PermitsRead(size, timeout, o, e)
    {
      hide Valid, Affected, Base64.Encode;
      var data;
      data, e := ReadBytes(timeout, size);
      match data
      case IoFault => return Failed(SERIAL_IO), e;
      case OtherFault => return Crashed, e;
      case Done(bytes) =>
      return Reply(Success(map["data" := Str(Base64.Encode(bytes))]), false), e;
    }

    method ResetInput(request: Request) returns (o: Outcome, ghost e: Effect)
      requires Valid() && ValidateEnvelope(request) == Result.Ok("reset_input")
      modifies host
      ensures Valid() && Affected(e)
      ensures Handles(request, old(Connected()), o, e, Connected())
    {
      e := NO_EFFECT;
      hide ValidateFields;
      assert host.calls + [] == host.calls;
      var fields := ValidateFields(request, {});
      if fields.Err? { return Failed(fields.error), e; }
      if connection == null { return Failed(NOT_OPEN), e; }
      var done := connection.ResetInput();
      e := Effect([], [], [ResetInputBuffer(done)]);
      match done
      case IoFault => return Failed(SERIAL_IO), e;
      case OtherFault => return Crashed, e;
      case Done(_) => return Reply(Success(map[]), false), e;
    }

    method ResetOutput(request: Request) returns (o: Outcome, ghost e: Effect)
      requires Valid() && ValidateEnvelope(request) == Result.Ok("reset_output")
      modifies host
      ensures Valid() && Affected(e)
      ensures Handles(request, old(Connected()), o, e, Connected())
    {
      e := NO_EFFECT;
      hide ValidateFields;
      assert host.calls + [] == host.calls;
      var fields := ValidateFields(request, {});
      if fields.Err? { return Failed(fields.error), e; }
      if connection == null { return Failed(NOT_OPEN), e; }
      var done := connection.ResetOutput();
      e := Effect([], [], [ResetOutputBuffer(done)]);
      match done
      case IoFault => return Failed(SERIAL_IO), e;
      case OtherFault => return Crashed, e;
      case Done(_) => return Reply(Success(map[]), false), e;
    }

    /**
    Handle one request. Whatever the device does, exactly the calls are made that the valid request needs,
    their results decide the outcome, the device bytes change by exactly the reported effect, and a
    request rejected by validation calls and changes nothing at all.
    */
    method Handle(request: Request) returns (o: Outcome, ghost e: Effect)
      requires Valid()
      modifies this, created, host
      ensures Valid() && Affected(e) && fresh(set c | c in created && c !in old(created))
      ensures Handles(request, old(Connected()), o, e, Connected())
    {
      e := NO_EFFECT;
      hide ValidateDevice, DecodePayload, RequireTimeout, RequireInt, RequireString, RequireConnection;
      assert host.calls + [] == host.calls;
      var envelope := ValidateEnvelope(request);
      if envelope.Err? { return Failed(envelope.error), e; }
      var operation := envelope.value;
      if operation == "hello" {
        var fields := ValidateFields(request, {});
        if fields.Err? { return Failed(fields.error), e; }
        return Reply(Success(map["agent_version" := Str(AGENT_VERSION)]), false), e;
      } else if operation == "open" {
        o, e := Open(request);
      } else if operation == "write" {
        o, e := Write(request);
      } else if operation == "read" {
        o, e := Read(request);
      } else if operation == "reset_input" {
        o, e := ResetInput(request);
      } else if operation == "reset_output" {
        o, e := ResetOutput(request);
      } else if operation == "close" {
        o, e := CloseRequested(request);
      } else {
        return Failed(AgentError("unknown_operation", "Unsupported operation")), e;
      }
    }

    method CloseRequested(request: Request) returns (o: Outcome, ghost e: Effect)
      requires Valid() && ValidateEnvelope(request) == Result.Ok("close")
      modifies this, created, host
      ensures Valid() && Affected(e) && created == old(created)
      ensures Handles(request, old(Connected()), o, e, Connected())
    {
      e := NO_EFFECT;
      hide ValidateFields;
      assert host.calls + [] == host.calls;
      var fields := ValidateFields(request, {});
      if fields.Err? { return Failed(fields.error), e; }
      var closed;
      closed, e := Close();
      match closed
      case IoFault => return Failed(SERIAL_IO), e;
      case OtherFault => return Crashed, e;
      case Done(_) => return Reply(Success(map[]), true), e;
    }
  }

  lemma PayloadNeverCrashes(request: Request)
    ensures !DecodePayload(request).Crash?
  {
    hide Base64.DecodeStrict;
  }

  lemma IntInRange(request: Request, name: string, minimum: int, maximum: int)
    ensures RequireInt(request, name, minimum, maximum).Ok? ==>
      minimum <= RequireInt(request, name, minimum, maximum).value <= maximum
  {
  }

  lemma SameEnd(start: seq<byte>, a: seq<byte>, b: seq<byte>)
    requires start + a == start + b
    ensures a == b
  {
    assert a == (start + a)[|start|..] && b == (start + b)[|start|..];
  }
}
