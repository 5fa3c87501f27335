/**
Signed session values: a JSON object in unpadded URL-safe Base64, a dot, and a signature of the
encoded text. The clock is a parameter of each reading; the signature is any function with an ASCII
result.
*/
module Session {
  import opened Sequences
  import opened Json
  import Base64

  datatype Principal = Principal(
    subject: string, username: Option<string>, roles: seq<string>, authentication: string, expiresAt: Option<int>)

  /**
  What the codec depends on: the JSON codec, the keyed signature, Python's int of a string and str of
  a JSON value, and the lifetime of a session.
  */
  datatype Settings = Settings(
    codec: Codec,
    sign: string -> string,
    parseInt: string -> Option<int>,
    render: Json -> string,
    lifetime: int)

  predicate IsAscii(s: string) { forall i :: 0 <= i < |s| ==> s[i] < 128 as char }

  ghost predicate Sound(settings: Settings) {
    && Faithful(settings.codec)
    && (forall text :: IsAscii(settings.sign(text)))
    && (forall text :: settings.render(Str(text)) == text)
  }

  /** A decoded value, a rejected one, or an exception that the decoder does not expect. */
  datatype Decoded<+T> = Accepted(value: T) | Rejected | Raised

  // ----- Encoding -----

  function Body(payload: Fields, now: int): Fields {
    map["iat" := Int(now)] + payload
  }

  function EncodeSigned(payload: Fields, now: int, settings: Settings): string {
    var encoded := Base64.EncodeUrl(settings.codec.dumps(Obj(Body(payload, now))));
    encoded + "." + settings.sign(encoded)
  }

  function Optional(text: Option<string>): Json { if text.Some? then Str(text.value) else Null }

  function Texts(values: seq<string>): (r: seq<Json>)
    ensures |r| == |values|
  {
    seq(|values|, i requires 0 <= i < |values| => Str(values[i]))
  }

  function AsDict(p: Principal): Fields {
    map[
      "subject" := Str(p.subject),
      "username" := Optional(p.username),
      "roles" := Arr(Texts(p.roles)),
      "method" := Str(p.authentication),
      "expires_at" := if p.expiresAt.Some? then Int(p.expiresAt.value) else Null]
  }

  // ----- Decoding -----

  /** The text before and after the first dot. */
  function Partition(value: string): Option<(string, string)> {
    var i := IndexOf(value, '.');
    if i == |value| then None else Some((value[..i], value[i + 1..]))
  }

  /** Rounding toward zero. */
  function Truncate(units: int): int {
    if units >= 0 then units / UNITS_PER_ONE else -(-units / UNITS_PER_ONE)
  }

  /** Python's int(value); an infinity raises OverflowError, which the decoder does not catch. */
  function AsInt(value: Json, settings: Settings): Decoded<int> {
    match value
    case Int(n) => Accepted(n)
    case Bool(b) => Accepted(if b then 1 else 0)
    case Number(Finite(units)) => Accepted(Truncate(units))
    case Number(Infinite) => Raised
    case Str(text) => (match settings.parseInt(text) case Some(n) => Accepted(n) case None => Rejected)
    case _ => Rejected
  }

  function OptionalInt(value: Json): Decoded<Option<int>> {
    match value
    case Null => Accepted(None)
    case Int(n) => Accepted(Some(n))
    case _ => Rejected
  }

  /** The payload of a signed text, before its times are looked at. */
  function DecodePayload(encoded: string, settings: Settings): Decoded<Fields> {
    if !IsAscii(encoded) then Rejected
    else
      match Base64.DecodeUrl(encoded)
      case None => Rejected
      case Some(data) =>
        match settings.codec.loads(data)
        case Parsed(Obj(fields)) => if "iat" in fields then Accepted(fields) else Rejected
        case Raises => Raised
        case _ => Rejected
  }

  /** The clock is read once for the age and once more when there is an expiry time. */
  function CheckTimes(fields: Fields, issuedAt: int, maxAge: int, first: int, second: int): Decoded<Fields> {
    if !(0 <= first - issuedAt <= maxAge) then Rejected
    else
      match OptionalInt(Get(fields, "expires_at"))
      case Accepted(Some(expiresAt)) => if second > expiresAt then Rejected else Accepted(fields)
      case Accepted(None) => Accepted(fields)
      case _ => Rejected
  }

  /** Comparing signatures raises for text that is not ASCII. */
  function DecodeSigned(
    value: Option<string>, settings: Settings, maxAge: int, first: int, second: int
  ): Decoded<Fields> {
    if value.None? then Rejected
    else
      match Partition(value.value)
      case None => Rejected
      case Some((encoded, signature)) =>
        if !IsAscii(signature) || !IsAscii(settings.sign(encoded)) then Raised
        else if signature != settings.sign(encoded) then Rejected
        else
          match DecodePayload(encoded, settings)
          case Raised => Raised
          case Rejected => Rejected
          case Accepted(fields) =>
            match AsInt(fields["iat"], settings)
            case Raised => Raised
            case Rejected => Rejected
            case Accepted(issuedAt) => CheckTimes(fields, issuedAt, maxAge, first, second)
  }

  function OnlyTexts(values: seq<Json>): seq<string> {
    if values == [] then []
    else (if values[0].Str? then [values[0].text] else []) + OnlyTexts(values[1..])
  }

  function ToPrincipal(fields: Fields, settings: Settings): Decoded<Principal> {
    if !("roles" in fields && fields["roles"].Arr? && "subject" in fields && "method" in fields) then Rejected
    else
      match OptionalInt(Get(fields, "expires_at"))
      case Accepted(expiresAt) =>
        var username := Get(fields, "username");
        Accepted(Principal(
          settings.render(fields["subject"]),
          if username == Null then None else Some(settings.render(username)),
          OnlyTexts(fields["roles"].items),
          settings.render(fields["method"]),
          expiresAt))
      case _ => Rejected
  }

  function DecodeSession(value: string, settings: Settings, first: int, second: int): Decoded<Principal> {
    match DecodeSigned(Some(value), settings, settings.lifetime, first, second)
    case Raised => Raised
    case Rejected => Rejected
    case Accepted(fields) => ToPrincipal(fields, settings)
  }

  // ----- The time of issue -----

  /** This number without its fraction. */
  predicate IsWholePart(n: int, units: int) {
    if units >= 0 then n * UNITS_PER_ONE <= units < (n + 1) * UNITS_PER_ONE
    else (n - 1) * UNITS_PER_ONE < units <= n * UNITS_PER_ONE
  }

  lemma TruncateIs(units: int, n: int)
    ensures Truncate(units) == n <==> IsWholePart(n, units)
  {
  }

  /** What is read as a time: a number without its fraction, a truth value as 0 or 1, or a numeral. */
  lemma ReadAsTime(value: Json, settings: Settings, n: int)
    ensures AsInt(value, settings) == Accepted(n) <==>
      || value == Int(n)
      || (value == Bool(false) && n == 0) || (value == Bool(true) && n == 1)
      || (value.Number? && value.x.Finite? && IsWholePart(n, value.x.units))
      || (value.Str? && settings.parseInt(value.text) == Some(n))
    ensures AsInt(value, settings).Raised? <==> value == Number(Infinite)
  {
    hide Truncate, IsWholePart;
    if value.Number? && value.x.Finite? {
      TruncateIs(value.x.units, n);
    }
  }

  // ----- Round trips -----

  lemma PartitionUndoesJoining(encoded: string, signature: string)
    requires '.' !in encoded
    ensures Partition(encoded + "." + signature) == Some((encoded, signature))
  {
    var value := encoded + "." + signature;
    IndexOfIs(value, '.', |encoded|);
    assert value[..|encoded|] == encoded && value[|encoded| + 1..] == signature;
  }

  lemma EncodedIsAscii(data: seq<byte>)
    ensures IsAscii(Base64.EncodeUrl(data))
  {
    Base64.UrlTranslation(Base64.Sextets(data), Base64.Missing(|Base64.Sextets(data)|));
  }

  /** Decoding a value that was issued gives back its payload exactly within its lifetime and expiry. */
  lemma SignedRoundTrip(payload: Fields, issuedAt: int, settings: Settings, maxAge: int, first: int, second: int)
    requires Sound(settings) && "iat" !in payload
    ensures DecodeSigned(Some(EncodeSigned(payload, issuedAt, settings)), settings, maxAge, first, second)
      == CheckTimes(Body(payload, issuedAt), issuedAt, maxAge, first, second)
  {
    hide IsAscii, Base64.EncodeUrl, Base64.DecodeUrl, CheckTimes, Partition;
    var body := Body(payload, issuedAt);
    var data := settings.codec.dumps(Obj(body));
    var encoded := Base64.EncodeUrl(data);
    Base64.UrlAlphabet(data);
    Base64.UrlRoundTrip(data);
    EncodedIsAscii(data);
    PartitionUndoesJoining(encoded, settings.sign(encoded));
    assert settings.codec.loads(data) == Parsed(Obj(body));
    assert body["iat"] == Int(issuedAt);
  }

  lemma {:induction false} TextsRoundTrip(values: seq<string>)
    ensures OnlyTexts(Texts(values)) == values
  {
    if values != [] {
      TextsRoundTrip(values[1..]);
      assert Texts(values)[1..] == Texts(values[1..]);
    }
  }

  lemma PrincipalRoundTrip(p: Principal, issuedAt: int, settings: Settings)
    requires Sound(settings)
    ensures ToPrincipal(Body(AsDict(p), issuedAt), settings) == Accepted(p)
  {
    TextsRoundTrip(p.roles);
    assert forall text :: settings.render(Str(text)) == text;
  }

  /** The session is within its lifetime at the first reading, and not past its expiry at the second. */
  predicate Current(p: Principal, issuedAt: int, lifetime: int, first: int, second: int) {
    0 <= first - issuedAt <= lifetime && (p.expiresAt.Some? ==> second <= p.expiresAt.value)
  }

  /** A session value is good for its principal as long as it is current and for nothing afterwards. */
  lemma SessionRoundTrip(p: Principal, issuedAt: int, settings: Settings, first: int, second: int)
    requires Sound(settings)
    ensures DecodeSession(EncodeSigned(AsDict(p), issuedAt, settings), settings, first, second)
      == if Current(p, issuedAt, settings.lifetime, first, second) then Accepted(p) else Rejected
  {
    hide DecodeSigned, EncodeSigned, ToPrincipal, Sound;
    SignedRoundTrip(AsDict(p), issuedAt, settings, settings.lifetime, first, second);
    PrincipalRoundTrip(p, issuedAt, settings);
  }

  /** The value that carries a login across the identity provider's redirect never serves as a session. */
  lemma TransactionIsNoSession(
    state: string, nonce: string, verifier: string, issuedAt: int, settings: Settings, first: int, second: int
  )
    requires Sound(settings)
    ensures
      var payload := map["state" := Str(state), "nonce" := Str(nonce), "verifier" := Str(verifier)];
      DecodeSession(EncodeSigned(payload, issuedAt, settings), settings, first, second) == Rejected
  {
    hide DecodeSigned, EncodeSigned, Sound;
    var payload := map["state" := Str(state), "nonce" := Str(nonce), "verifier" := Str(verifier)];
    SignedRoundTrip(payload, issuedAt, settings, settings.lifetime, first, second);
  }

  /** The max-age of the session cookie. */
  function CookieAge(p: Principal, lifetime: int, now: int): int {
    if p.expiresAt.None? then lifetime
    else
      var left := if p.expiresAt.value - now > 0 then p.expiresAt.value - now else 0;
      if lifetime < left then lifetime else left
  }

  /** A cookie set for a session that has not expired is kept exactly as long as its value is good. */
  lemma CookieLivesAsLongAsItsValue(p: Principal, now: int, later: int, settings: Settings)
    requires Sound(settings) && now <= later
    requires p.expiresAt.Some? ==> now <= p.expiresAt.value
    ensures DecodeSession(EncodeSigned(AsDict(p), now, settings), settings, later, later) == Accepted(p)
      <==> later - now <= CookieAge(p, settings.lifetime, now)
  {
    SessionRoundTrip(p, now, settings, later, later);
  }

  /**
  Whatever is accepted was signed: the value is a text, a dot and the signature of exactly that text,
  and the times in it are current. So text and signature cannot be changed separately.
  */
  lemma OnlySignedValuesDecode(value: string, settings: Settings, first: int, second: int)
    requires DecodeSession(value, settings, first, second).Accepted?
    ensures exists encoded, fields, issuedAt ::
      && SignedPayload(value, encoded, fields, issuedAt, settings)
      && 0 <= first - issuedAt <= settings.lifetime
      && CheckTimes(fields, issuedAt, settings.lifetime, first, second).Accepted?
      && DecodeSession(value, settings, first, second) == ToPrincipal(fields, settings)
  {
    hide Base64.DecodeUrl, ToPrincipal;
    var (encoded, signature) := Partition(value).value;
    var fields := DecodePayload(encoded, settings).value;
    var issuedAt := AsInt(fields["iat"], settings).value;
    assert value == encoded + "." + signature;
    assert SignedPayload(value, encoded, fields, issuedAt, settings);
  }

  /** The text of a value is signed and reads as an object with a time of issue. */
  predicate SignedObject(value: string, fields: Fields, settings: Settings) {
    match Partition(value)
    case None => false
    case Some((encoded, signature)) =>
      signature == settings.sign(encoded) && DecodePayload(encoded, settings) == Accepted(fields)
  }

  /** The text of a value is signed, and reading it as JSON raises something unexpected. */
  predicate SignedUnreadable(value: string, settings: Settings) {
    match Partition(value)
    case None => false
    case Some((encoded, signature)) =>
      && signature == settings.sign(encoded) && IsAscii(encoded)
      && Base64.DecodeUrl(encoded).Some? && settings.codec.loads(Base64.DecodeUrl(encoded).value).Raises?
  }

  /**
  When the decoder raises instead of rejecting: for a signature outside ASCII; and for a signed text
  whose JSON cannot be read or whose time of issue is infinite, neither of which is ever issued.
  */
  lemma DecodingRaisesExactly(value: string, settings: Settings, first: int, second: int)
    requires Sound(settings)
    ensures DecodeSession(value, settings, first, second).Raised? <==>
      || (Partition(value).Some? && !IsAscii(Partition(value).value.1))
      || SignedUnreadable(value, settings)
      || (exists fields :: SignedObject(value, fields, settings) && fields["iat"] == Number(Infinite))
  {
    hide Base64.DecodeUrl, IsAscii, CheckTimes;
    CheckTimesNeverRaises();
    match Partition(value)
    case None =>
    case Some((encoded, signature)) =>
      var payload := DecodePayload(encoded, settings);
      if payload.Accepted? && signature == settings.sign(encoded) {
        assert SignedObject(value, payload.value, settings);
      }
  }

  lemma CheckTimesNeverRaises()
    ensures forall fields, issuedAt, maxAge, first, second ::
      !CheckTimes(fields, issuedAt, maxAge, first, second).Raised?
  {
  }

  /** A value for which the decoder raises. */
  lemma DecodingRaisesExample(settings: Settings, first: int, second: int)
    requires Sound(settings)
    ensures DecodeSession(".\U{00E9}", settings, first, second).Raised?
  {
    var value := ".\U{00E9}";
    assert Partition(value) == Some(("", "\U{00E9}")) by {
      IndexOfIs(value, '.', 0);
    }
    var signature := "\U{00E9}";
    assert signature[0] >= 128 as char && !IsAscii(signature);
    DecodingRaisesExactly(value, settings, first, second);
  }

  predicate SignedPayload(value: string, encoded: string, fields: Fields, issuedAt: int, settings: Settings) {
    && value == encoded + "." + settings.sign(encoded)
    && '.' !in encoded
    && DecodePayload(encoded, settings) == Accepted(fields)
    && AsInt(fields["iat"], settings) == Accepted(issuedAt)
  }
}
