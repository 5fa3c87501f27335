/** The agent's protocol primitives: envelope and field validation, payloads and size limits. */
module AgentProtocol {
  import opened Sequences
  import opened Json
  import Base64

  const PROTOCOL_VERSION := 1
  const MAX_JSON_LINE_BYTES := 1_048_576
  const MAX_PAYLOAD_BYTES := 262_144
  const MAX_READ_BYTES := 262_144
  const MAX_TIMEOUT_SECONDS := 120
  const AGENT_VERSION := "0.1.0"

  /** Integers from here on (2^1024 - 2^970) do not convert to a float; the conversion raises. */
  const FLOAT_OVERFLOW: int := 0xFFFFFFFFFFFFFC00000000000000000000000000000000000000000000000000000000000000000000000000000000000000000000000000000000000000000000000000000000000000000000000000000000000000000000000000000000000000000000000000000000000000000000000000000000000000000000000000

  type Request = Fields
  type Response = Fields

  datatype AgentError = AgentError(code: string, message: string)

  /** A value, the expected AgentError, or an exception of another type. */
  datatype Result<+T> = Ok(value: T) | Err(error: AgentError) | Crash {
    predicate IsFailure() { !Ok? }
    function PropagateFailure<U>(): Result<U>
      requires !Ok?
    {
      if Err? then Err(error) else Crash
    }
    function Extract(): T
      requires Ok?
    {
      value
    }
  }

  function Invalid<T>(message: string): Result<T> { Err(AgentError("invalid_request", message)) }

  const TOO_LARGE := AgentError("request_too_large", "JSON request line is too large")
  const SERIAL_IO := AgentError("serial_io", "Serial operation failed")
  const NOT_CHAR_DEVICE := AgentError("invalid_device", "Serial device is not a character device")

  function DecodeRequest(codec: Codec, line: seq<byte>): Result<Request> {
    match codec.loads(line)
    case Raises => Crash
    case Malformed => Err(AgentError("invalid_json", "Request must be one valid JSON object"))
    case Parsed(Obj(fields)) => Ok(fields)
    case Parsed(_) => Invalid("Request must be a JSON object with string keys")
  }

  function EncodeResponse(codec: Codec, response: Response): seq<byte> {
    codec.dumps(Obj(response)) + [NEWLINE]
  }

  function Success(values: Fields): Response {
    map["version" := Int(PROTOCOL_VERSION), "ok" := Bool(true)] + values
  }

  function Failure(error: AgentError): Response {
    map["version" := Int(PROTOCOL_VERSION), "ok" := Bool(false),
        "error" := Obj(map["code" := Str(error.code), "message" := Str(error.message)])]
  }

  /** A structured error with this code and message, and nothing else. */
  predicate IsFailure(response: Response, code: string, message: string) {
    && response.Keys == {"version", "ok", "error"}
    && response["version"] == Int(PROTOCOL_VERSION) && response["ok"] == Bool(false) && response["error"].Obj?
    && response["error"].fields.Keys == {"code", "message"}
    && response["error"].fields["code"] == Str(code) && response["error"].fields["message"] == Str(message)
  }

  lemma FailureIs(error: AgentError)
    ensures IsFailure(Failure(error), error.code, error.message)
  {
  }

  function ValidateEnvelope(request: Request): Result<string> {
    if !EqualsOne(Get(request, "version")) then
      Err(AgentError("unsupported_version", "Supported protocol version is 1"))
    else
      match Get(request, "operation")
      case Str(operation) =>
        if operation == "" then Invalid("operation must be a non-empty string") else Ok(operation)
      case _ => Invalid("operation must be a non-empty string")
  }

  function ValidateFields(request: Request, required: set<string>): (r: Result<()>)
    ensures !r.Crash?
  {
    if !(required <= request.Keys) then Invalid("Missing required fields")
    else if !(request.Keys <= required + {"version", "operation"}) then Invalid("Unexpected fields")
    else Ok(())
  }

  function RequireString(request: Request, name: string): (r: Result<string>)
    ensures !r.Crash?
  {
    match Get(request, name)
    case Str(text) =>
      if text == "" then Invalid(name + " must be a non-empty string") else Ok(text)
    case _ => Invalid(name + " must be a non-empty string")
  }

  function RequireInt(request: Request, name: string, minimum: int, maximum: int): (r: Result<int>)
    ensures !r.Crash?
  {
    match Get(request, name)
    case Int(n) =>
      if minimum <= n <= maximum then Ok(n) else Invalid(name + " must be an integer in range")
    case _ => Invalid(name + " must be an integer in range")
  }

  function RequireTimeout(request: Request): Result<Float> {
    match Get(request, "timeout")
    case Int(n) =>
      if -FLOAT_OVERFLOW < n < FLOAT_OVERFLOW then BoundTimeout(Finite(n * UNITS_PER_ONE)) else Crash
    case Number(x) => BoundTimeout(x)
    case _ => Invalid("timeout must be a number")
  }

  function BoundTimeout(x: Float): Result<Float> {
    if x.Finite? && 0 <= x.units <= MAX_TIMEOUT_SECONDS * UNITS_PER_ONE then Ok(x)
    else Invalid("timeout must be between 0 and 120.0")
  }

  function DecodePayload(request: Request): Result<seq<byte>> {
    var encoded :- RequireString(request, "data");
    match Base64.DecodeStrict(encoded)
    case None => Err(AgentError("invalid_base64", "data must contain valid Base64"))
    case Some(payload) =>
      if |payload| > MAX_PAYLOAD_BYTES then
        Err(AgentError("payload_too_large", "Decoded data exceeds 262144 bytes"))
      else Ok(payload)
  }

  /** DecodePayload accepts the encoding of exactly the payloads of 1 to 262144 bytes. */
  lemma PayloadRoundTrip(request: Request, payload: seq<byte>)
    requires Get(request, "data") == Str(Base64.Encode(payload))
    ensures DecodePayload(request) == Ok(payload) <==> 1 <= |payload| <= MAX_PAYLOAD_BYTES
    ensures |payload| > MAX_PAYLOAD_BYTES ==>
      DecodePayload(request).Err? && DecodePayload(request).error.code == "payload_too_large"
    ensures payload == [] ==>
      DecodePayload(request).Err? && DecodePayload(request).error.code == "invalid_request"
  {
    Base64.StrictRoundTrip(payload);
    Base64.EncodeLength(payload);
    if payload == [] {
      assert Base64.Encode(payload) == "";
    } else {
      assert Base64.Encode(payload) != "";
    }
  }

  // ----- Size limits -----

  /** The compact text of a write request around its Base64 data, without the closing newline. */
  function WriteRequestText(data: string): string {
    "{\"version\":1,\"operation\":\"write\",\"data\":\"" + data + "\"}"
  }

  /** The compact text of a successful read response around its Base64 data. */
  function ReadResponseText(data: string): string {
    "{\"version\":1,\"ok\":true,\"data\":\"" + data + "\"}"
  }

  function WriteRequest(data: string): Request {
    map["version" := Int(1), "operation" := Str("write"), "data" := Str(data)]
  }

  /** A codec that writes these two messages without spaces, one byte for each character. */
  ghost predicate Compact(codec: Codec) {
    forall data: string | forall c :: c in data ==> Base64.Value(c).Some? || c == Base64.PAD ::
      && |codec.dumps(Obj(WriteRequest(data)))| == |WriteRequestText(data)|
      && |codec.dumps(Obj(Success(map["data" := Str(data)])))| == |ReadResponseText(data)|
  }

  /**
  Every accepted payload fits the agent's line limit, newline included, and the answer to the
  largest read fits the limit that the client puts on its response buffer.
  */
  lemma MessagesFit(codec: Codec, payload: seq<byte>)
    requires Compact(codec)
    requires |payload| <= MAX_PAYLOAD_BYTES && |payload| <= MAX_READ_BYTES
    ensures |codec.dumps(Obj(WriteRequest(Base64.Encode(payload))))| + 1 <= MAX_JSON_LINE_BYTES
    ensures |EncodeResponse(codec, Success(map["data" := Str(Base64.Encode(payload))]))| <= 1_048_576
  {
    Base64.EncodeLength(payload);
    var values := Base64.Sextets(payload);
    Base64.SymbolsRoundTrip(values);
    assert forall c :: c in Base64.Encode(payload) ==> Base64.Value(c).Some? || c == Base64.PAD;
  }

  // ----- Validation as a whole -----

  datatype Action =
    | Hello
    | Open(device: string, baudrate: int)
    | Write(payload: seq<byte>)
    | Read(size: nat, timeout: Float)
    | ResetInput
    | ResetOutput
    | Close

  const NOT_OPEN := AgentError("not_open", "No serial device is open")
  const ALREADY_OPEN := AgentError("already_open", "A serial device is already open")

  function RequireConnection(connected: bool): (r: Result<()>)
    ensures !r.Crash?
  {
    if connected then Ok(()) else Err(NOT_OPEN)
  }

  /** The parts PurePosixPath sees: what lies between slashes, without empty and '.' parts. */
  function PathParts(path: string): seq<string>
    decreases |path|
  {
    if path == "" then []
    else
      var i := IndexOf(path, '/');
      var rest := if i < |path| then PathParts(path[i + 1..]) else [];
      if path[..i] == "" || path[..i] == "." then rest else [path[..i]] + rest
  }

  /** An absolute path strictly below /dev, with no '..' and no control characters. */
  function ValidateDevice(value: string): (r: Result<string>)
    ensures !r.Crash?
  {
    var parts := PathParts(value);
    if '\0' in value || '\r' in value || '\n' in value then
      Err(AgentError("invalid_device", "device must not contain control characters"))
    else if !("/" <= value) || parts == ["dev"] || !(["dev"] <= parts) || ".." in parts
      || ("//" <= value && !("///" <= value))
    then
      Err(AgentError("invalid_device", "device must be an absolute path below /dev"))
    else Ok(value)
  }

  /** The action a request asks for once every check that precedes the device has passed. */
  function Validate(request: Request, connected: bool): Result<Action> {
    var operation :- ValidateEnvelope(request);
    if operation == "hello" then
      var _ :- ValidateFields(request, {});
      Ok(Hello)
    else if operation == "open" then
      var _ :- ValidateFields(request, {"device", "baudrate"});
      if connected then Err(ALREADY_OPEN) else
        var text :- RequireString(request, "device");
        var device :- ValidateDevice(text);
        var baudrate :- RequireInt(request, "baudrate", 1, 10_000_000);
        Ok(Open(device, baudrate))
    else if operation == "write" then
      var _ :- ValidateFields(request, {"data"});
      var _ :- RequireConnection(connected);
      var payload :- DecodePayload(request);
      Ok(Write(payload))
    else if operation == "read" then
      var _ :- ValidateFields(request, {"size", "timeout"});
      var _ :- RequireConnection(connected);
      var size :- RequireInt(request, "size", 1, MAX_READ_BYTES);
      var timeout :- RequireTimeout(request);
      Ok(Read(size, timeout))
    else if operation == "reset_input" then
      var _ :- ValidateFields(request, {});
      var _ :- RequireConnection(connected);
      Ok(ResetInput)
    else if operation == "reset_output" then
      var _ :- ValidateFields(request, {});
      var _ :- RequireConnection(connected);
      Ok(ResetOutput)
    else if operation == "close" then
      var _ :- ValidateFields(request, {});
      Ok(Close)
    else Err(AgentError("unknown_operation", "Unsupported operation"))
  }

  // ----- Which requests are accepted, and which raise -----

  /** A request for this operation with exactly these fields besides the envelope. */
  predicate IsRequest(request: Request, operation: string, names: set<string>) {
    && request.Keys == names + {"version", "operation"}
    && EqualsOne(request["version"])
    && request["operation"] == Str(operation)
  }

  /** A number of seconds from 0 to 120, as a JSON integer or a JSON float. */
  predicate IsSeconds(value: Json, timeout: Float) {
    || (value == Number(timeout) && timeout.Finite? && 0 <= timeout.units <= MAX_TIMEOUT_SECONDS * UNITS_PER_ONE)
    || (value.Int? && 0 <= value.n <= MAX_TIMEOUT_SECONDS && timeout == Finite(value.n * UNITS_PER_ONE))
  }

  /** What a request must look like to ask for this action. */
  predicate Asks(request: Request, connected: bool, action: Action) {
    match action
    case Hello => IsRequest(request, "hello", {})
    case Open(device, baudrate) =>
      && IsRequest(request, "open", {"device", "baudrate"}) && !connected
      && request["device"] == Str(device) && device != "" && ValidateDevice(device).Ok?
      && request["baudrate"] == Int(baudrate) && 1 <= baudrate <= 10_000_000
    case Write(payload) =>
      && IsRequest(request, "write", {"data"}) && connected
      && request["data"].Str? && request["data"].text != ""
      && Base64.DecodeStrict(request["data"].text) == Some(payload) && |payload| <= MAX_PAYLOAD_BYTES
    case Read(size, timeout) =>
      && IsRequest(request, "read", {"size", "timeout"}) && connected
      && request["size"] == Int(size) && 1 <= size <= MAX_READ_BYTES
      && IsSeconds(request["timeout"], timeout)
    case ResetInput => IsRequest(request, "reset_input", {}) && connected
    case ResetOutput => IsRequest(request, "reset_output", {}) && connected
    case Close => IsRequest(request, "close", {})
  }

  /** A read that is in order but for an integer timeout that no float can hold. */
  predicate OverflowsTimeout(request: Request, connected: bool) {
    && IsRequest(request, "read", {"size", "timeout"}) && connected
    && request["size"].Int? && 1 <= request["size"].n <= MAX_READ_BYTES
    && request["timeout"].Int? && !(-FLOAT_OVERFLOW < request["timeout"].n < FLOAT_OVERFLOW)
  }

  lemma EnvelopeAndFields(request: Request, operation: string, names: set<string>)
    requires "version" !in names && "operation" !in names
    ensures ValidateEnvelope(request) == Ok(operation) && ValidateFields(request, names).Ok?
      <==> operation != "" && IsRequest(request, operation, names)
    ensures IsRequest(request, operation, names) ==> names <= request.Keys
  {
  }

  lemma DeviceIsItself(value: string)
    ensures ValidateDevice(value).Ok? ==> ValidateDevice(value) == Ok(value)
  {
    hide PathParts;
  }

  lemma TimeoutExactly(request: Request, timeout: Float)
    requires "timeout" in request
    ensures RequireTimeout(request) == Ok(timeout) <==> IsSeconds(request["timeout"], timeout)
    ensures RequireTimeout(request).Crash? <==>
      request["timeout"].Int? && !(-FLOAT_OVERFLOW < request["timeout"].n < FLOAT_OVERFLOW)
  {
  }

  lemma OpenAccepts(request: Request, connected: bool, action: Action)
    requires ValidateEnvelope(request) == Ok("open")
    ensures Validate(request, connected) == Ok(action) <==> action.Open? && Asks(request, connected, action)
  {
    hide ValidateEnvelope, ValidateFields, RequireTimeout, IsRequest, IsSeconds, ValidateDevice, Base64.DecodeStrict;
    EnvelopeAndFields(request, "open", {"device", "baudrate"});
    DeviceIsItself(if Get(request, "device").Str? then Get(request, "device").text else "");
  }

  lemma WriteAccepts(request: Request, connected: bool, action: Action)
    requires ValidateEnvelope(request) == Ok("write")
    ensures Validate(request, connected) == Ok(action) <==> action.Write? && Asks(request, connected, action)
  {
    hide ValidateEnvelope, ValidateFields, RequireTimeout, IsRequest, IsSeconds, ValidateDevice, Base64.DecodeStrict;
    EnvelopeAndFields(request, "write", {"data"});
  }

  lemma ReadAccepts(request: Request, connected: bool, action: Action)
    requires ValidateEnvelope(request) == Ok("read")
    ensures Validate(request, connected) == Ok(action) <==> action.Read? && Asks(request, connected, action)
  {
    hide ValidateEnvelope, ValidateFields, RequireTimeout, IsRequest, IsSeconds, ValidateDevice, Base64.DecodeStrict;
    EnvelopeAndFields(request, "read", {"size", "timeout"});
    if action.Read? && "timeout" in request {
      TimeoutExactly(request, action.timeout);
    }
  }

  lemma BareAccepts(request: Request, connected: bool, action: Action)
    requires ValidateEnvelope(request) !in {Ok("open"), Ok("write"), Ok("read")}
    ensures Validate(request, connected) == Ok(action) <==>
      !action.Open? && !action.Write? && !action.Read? && Asks(request, connected, action)
  {
    hide ValidateEnvelope, ValidateFields, RequireTimeout, IsRequest, IsSeconds, ValidateDevice, DecodePayload;
    hide RequireInt, RequireString;
    EnvelopeAndFields(request, "hello", {});
    EnvelopeAndFields(request, "reset_input", {});
    EnvelopeAndFields(request, "reset_output", {});
    EnvelopeAndFields(request, "close", {});
  }

  /** Asking for an action settles the operation. */
  lemma AskedOperation(request: Request, connected: bool, action: Action)
    requires Asks(request, connected, action)
    ensures action.Open? <==> ValidateEnvelope(request) == Ok("open")
    ensures action.Write? <==> ValidateEnvelope(request) == Ok("write")
    ensures action.Read? <==> ValidateEnvelope(request) == Ok("read")
  {
    hide IsSeconds, ValidateDevice, Base64.DecodeStrict;
  }

  /** The validators together accept exactly the requests that ask for an action, and give that action. */
  lemma ValidateAccepts(request: Request, connected: bool, action: Action)
    ensures Validate(request, connected) == Ok(action) <==> Asks(request, connected, action)
  {
    hide *;
    if Asks(request, connected, action) {
      AskedOperation(request, connected, action);
    }
    if ValidateEnvelope(request) == Ok("open") {
      OpenAccepts(request, connected, action);
    } else if ValidateEnvelope(request) == Ok("write") {
      WriteAccepts(request, connected, action);
    } else if ValidateEnvelope(request) == Ok("read") {
      ReadAccepts(request, connected, action);
    } else {
      BareAccepts(request, connected, action);
    }
  }

  /** Validation raises something other than its own error exactly for an overflowing timeout. */
  lemma ValidateCrashes(request: Request, connected: bool)
    ensures Validate(request, connected).Crash? <==> OverflowsTimeout(request, connected)
  {
  }

  function OverflowRequest(): Request {
    map["version" := Int(1), "operation" := Str("read"), "size" := Int(1), "timeout" := Int(FLOAT_OVERFLOW)]
  }

  /** Such a request, and the same one with a timeout in range. */
  lemma OverflowExample()
    ensures Validate(OverflowRequest(), true).Crash?
    ensures Validate(OverflowRequest()["timeout" := Int(FLOAT_OVERFLOW - 1)], true).Err?
    ensures Validate(OverflowRequest()["timeout" := Int(120)], true).Ok?
  {
    ValidateCrashes(OverflowRequest(), true);
  }

  // ----- Device paths -----

  /** The path with these parts between its slashes. */
  function Join(segments: seq<string>): string
    requires segments != []
  {
    if |segments| == 1 then segments[0] else segments[0] + "/" + Join(segments[1..])
  }

  /** The parts that are names: neither empty nor the current directory. */
  function Named(segments: seq<string>): seq<string> {
    if segments == [] then []
    else (if segments[0] in {"", "."} then [] else [segments[0]]) + Named(segments[1..])
  }

  lemma {:induction false} PathPartsAre(segments: seq<string>)
    requires segments != [] && forall i :: 0 <= i < |segments| ==> '/' !in segments[i]
    ensures PathParts(Join(segments)) == Named(segments)
  {
    var first, path := segments[0], Join(segments);
    if |segments| == 1 {
      IndexOfAbsent(first, '/');
      assert path[..|first|] == path && segments[1..] == [];
    } else {
      var rest := Join(segments[1..]);
      assert path[|first|] == '/';
      IndexOfIs(path, '/', |first|);
      assert path[..|first|] == first && path[|first| + 1..] == rest;
      PathPartsAre(segments[1..]);
    }
  }

  /**
  A device path is accepted exactly when it is absolute, with one or at least three slashes in front, has no
  control character, and names something below dev without going up.
  */
  lemma DeviceAccepted(segments: seq<string>)
    requires segments != [] && forall i :: 0 <= i < |segments| ==> '/' !in segments[i]
    ensures
      var value, names := Join(segments), Named(segments);
      ValidateDevice(value).Ok? <==>
        && '\0' !in value && '\r' !in value && '\n' !in value
        && "/" <= value && ("//" <= value ==> "///" <= value)
        && |names| >= 2 && names[0] == "dev" && ".." !in names
  {
    hide PathParts;
    PathPartsAre(segments);
  }

  // ----- Rejections -----

  const OPERATIONS := {"hello", "open", "write", "read", "reset_input", "reset_output", "close"}

  predicate NamesOperation(request: Request) {
    Get(request, "operation").Str? && Get(request, "operation").text != ""
  }

  /** A field that holds a non-empty string. */
  predicate HasText(request: Request, name: string) { Get(request, name).Str? && Get(request, name).text != "" }

  /** The code that a rejected request is answered with; the checks come in this order. */
  ghost predicate RejectedAs(request: Request, connected: bool, code: string) {
    if !EqualsOne(Get(request, "version")) then code == "unsupported_version"
    else if !NamesOperation(request) then code == "invalid_request"
    else if Get(request, "operation").text !in OPERATIONS then code == "unknown_operation"
    else if IsRequest(request, "open", {"device", "baudrate"}) then
      if connected then code == "already_open"
      else if HasText(request, "device") && !ValidateDevice(Get(request, "device").text).Ok? then
        code == "invalid_device"
      else code == "invalid_request"
    else if IsRequest(request, "write", {"data"}) then
      if !connected then code == "not_open"
      else if !HasText(request, "data") then code == "invalid_request"
      else if Base64.DecodeStrict(Get(request, "data").text).None? then code == "invalid_base64"
      else code == "payload_too_large" && |Base64.DecodeStrict(Get(request, "data").text).value| > MAX_PAYLOAD_BYTES
    else if IsRequest(request, "read", {"size", "timeout"}) then
      if !connected then code == "not_open" else code == "invalid_request"
    else if IsRequest(request, "reset_input", {}) || IsRequest(request, "reset_output", {}) then
      code == "not_open" && !connected
    else code == "invalid_request"
  }

  lemma EnvelopeCases(request: Request)
    ensures !EqualsOne(Get(request, "version")) ==>
      ValidateEnvelope(request).Err? && ValidateEnvelope(request).error.code == "unsupported_version"
    ensures EqualsOne(Get(request, "version")) && !NamesOperation(request) ==>
      ValidateEnvelope(request).Err? && ValidateEnvelope(request).error.code == "invalid_request"
    ensures EqualsOne(Get(request, "version")) && NamesOperation(request) ==>
      ValidateEnvelope(request) == Ok(Get(request, "operation").text)
    ensures forall operation, names :: IsRequest(request, operation, names) ==>
      Get(request, "operation") == Str(operation)
  {
  }

  lemma DeviceCode(value: string)
    ensures ValidateDevice(value).Ok?
      || (ValidateDevice(value).Err? && ValidateDevice(value).error.code == "invalid_device")
  {
    hide PathParts;
  }

  lemma FieldsCode(request: Request, names: set<string>)
    ensures ValidateFields(request, names).Ok?
      || (ValidateFields(request, names).Err? && ValidateFields(request, names).error.code == "invalid_request")
  {
  }

  lemma OpenRejects(request: Request, connected: bool)
    requires ValidateEnvelope(request) == Ok("open") && Validate(request, connected).Err?
    requires EqualsOne(Get(request, "version")) && Get(request, "operation") == Str("open")
    ensures RejectedAs(request, connected, Validate(request, connected).error.code)
  {
    hide ValidateEnvelope, ValidateFields, RequireTimeout, IsRequest, ValidateDevice, Base64.DecodeStrict, EqualsOne;
    EnvelopeAndFields(request, "open", {"device", "baudrate"});
    EnvelopeCases(request);
    FieldsCode(request, {"device", "baudrate"});
    DeviceCode(if Get(request, "device").Str? then Get(request, "device").text else "");
    DeviceIsItself(if Get(request, "device").Str? then Get(request, "device").text else "");
  }

  lemma WriteRejects(request: Request, connected: bool)
    requires ValidateEnvelope(request) == Ok("write") && Validate(request, connected).Err?
    requires EqualsOne(Get(request, "version")) && Get(request, "operation") == Str("write")
    ensures RejectedAs(request, connected, Validate(request, connected).error.code)
  {
    hide ValidateEnvelope, ValidateFields, RequireTimeout, IsRequest, ValidateDevice, Base64.DecodeStrict, EqualsOne;
    EnvelopeAndFields(request, "write", {"data"});
    EnvelopeCases(request);
    FieldsCode(request, {"data"});
  }

  lemma TimeoutCode(request: Request)
    ensures RequireTimeout(request).Err? ==> RequireTimeout(request).error.code == "invalid_request"
  {
  }

  lemma ReadRejects(request: Request, connected: bool)
    requires ValidateEnvelope(request) == Ok("read") && Validate(request, connected).Err?
    requires EqualsOne(Get(request, "version")) && Get(request, "operation") == Str("read")
    ensures RejectedAs(request, connected, Validate(request, connected).error.code)
  {
    hide ValidateEnvelope, ValidateFields, RequireTimeout, IsRequest, ValidateDevice, Base64.DecodeStrict, EqualsOne;
    EnvelopeAndFields(request, "read", {"size", "timeout"});
    EnvelopeCases(request);
    FieldsCode(request, {"size", "timeout"});
    TimeoutCode(request);
  }

  lemma BareRejects(request: Request, connected: bool)
    requires NamesOperation(request) && ValidateEnvelope(request) == Ok(Get(request, "operation").text)
    requires Get(request, "operation").text !in {"open", "write", "read"} && Validate(request, connected).Err?
    requires EqualsOne(Get(request, "version"))
    ensures RejectedAs(request, connected, Validate(request, connected).error.code)
  {
    hide ValidateEnvelope, ValidateFields, RequireTimeout, IsRequest, ValidateDevice, Base64.DecodeStrict, EqualsOne;
    hide RequireInt, RequireString, DecodePayload;
    EnvelopeCases(request);
    EnvelopeAndFields(request, "hello", {});
    EnvelopeAndFields(request, "reset_input", {});
    EnvelopeAndFields(request, "reset_output", {});
    EnvelopeAndFields(request, "close", {});
    FieldsCode(request, {});
  }

  /** A request that is neither accepted nor crashing is rejected with exactly this code. */
  lemma RejectionCode(request: Request, connected: bool)
    requires Validate(request, connected).Err?
    ensures RejectedAs(request, connected, Validate(request, connected).error.code)
  {
    EnvelopeCases(request);
    hide Validate, RejectedAs, ValidateEnvelope, IsRequest, EqualsOne;
    if !EqualsOne(Get(request, "version")) || !NamesOperation(request) {
      EnvelopeRejects(request, connected);
    } else if Get(request, "operation").text == "open" {
      OpenRejects(request, connected);
    } else if Get(request, "operation").text == "write" {
      WriteRejects(request, connected);
    } else if Get(request, "operation").text == "read" {
      ReadRejects(request, connected);
    } else {
      BareRejects(request, connected);
    }
  }

  lemma EnvelopeRejects(request: Request, connected: bool)
    requires !EqualsOne(Get(request, "version")) || !NamesOperation(request)
    ensures Validate(request, connected).Err? && RejectedAs(request, connected, Validate(request, connected).error.code)
  {
    EnvelopeCases(request);
    hide ValidateEnvelope, IsRequest, EqualsOne, ValidateFields;
  }
}
