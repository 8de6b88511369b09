/**
 * The request endpoint: a chain of checks, each ending the request on failure,
 * that yields the HTTP response together with the background tasks attached to
 * it. The registry is only read, through the dispatch snapshot.
 */
module Responder {
  import opened Events
  import opened Registry
  import opened Signature

  /** The `X-Slack-Request-Timestamp` header: its text and, when `int()` accepts it, its value. */
  datatype TimestampHeader = TimestampHeader(raw: string, seconds: Option<int>)

  /**
   * An inbound request; `verb` is the HTTP method. `signature` is the `X-Slack-Signature` header; `json` is the
   * body as parsed by the JSON decoder, `None` when the body is not valid JSON.
   */
  datatype Request = Request(
    verb: string,
    timestamp: Option<TimestampHeader>,
    signature: Option<string>,
    body: string,
    json: Option<Envelope>)

  datatype Response = Response(
    status: int,
    content: string,
    mediaType: Option<string>,
    headers: map<string, string>,
    background: seq<Task>)

  /** Exceptions the endpoint does not catch. */
  datatype Fault =
    | TimestampNotInteger  // int() rejects the timestamp header
    | TimestampBeyondFloat // the timestamp is too large in magnitude to convert to a float
    | SignatureNotAscii    // the digest comparison refuses a non-ASCII signature
    | BodyNotJson          // the JSON decoder rejects the body

  datatype Outcome = Responded(response: Response) | Raised(fault: Fault)

  const NotFoundText := "These are not the slackbots you're looking for."
  const MissingTimestampText := "Request doesn't contain timestamp header"
  const StaleTimestampText := "Invalid timestamp in request header"
  const BadSignatureText := "Invalid request signature"
  const NoEventText := "No event in request body"
  const TextPlain := "text/plain"
  const ApplicationJson := "application/json"
  const PoweredByHeader := "X-Slack-Powered-By"

  /** Largest accepted distance between the request timestamp and the clock, in seconds. */
  const MaxSkew: int := 60 * 5

  function Pow2(n: nat): nat {
    if n == 0 then 1 else 2 * Pow2(n - 1)
  }

  /**
   * The smallest magnitude an integer cannot be converted to a double from:
   * 2^1024 - 2^970. Larger magnitudes would round to 2^1024, past the largest
   * finite double, so subtracting such an integer from a float raises OverflowError.
   */
  const FloatOverflowBound: int := 0xFFFF_FFFF_FFFF_FC00_0000_0000_0000_0000_0000_0000_0000_0000_0000_0000_0000_0000_0000_0000_0000_0000_0000_0000_0000_0000_0000_0000_0000_0000_0000_0000_0000_0000_0000_0000_0000_0000_0000_0000_0000_0000_0000_0000_0000_0000_0000_0000_0000_0000_0000_0000_0000_0000_0000_0000_0000_0000_0000_0000_0000_0000_0000_0000_0000_0000

  lemma {:induction false} Pow2Add(a: nat, b: nat)
    ensures Pow2(a + b) == Pow2(a) * Pow2(b)
  {
    if a > 0 {
      Pow2Add(a - 1, b);
    }
  }

  /** The literal above is 2^1024 - 2^970. */
  lemma FloatOverflowBoundIs()
    ensures FloatOverflowBound == Pow2(1024) - Pow2(970)
  {
    assert Pow2(1) == 2;
    Pow2Add(1, 1);
    assert Pow2(2) == 0x4;
    Pow2Add(2, 2);
    assert Pow2(4) == 0x10;
    Pow2Add(4, 4);
    assert Pow2(8) == 0x100;
    Pow2Add(8, 8);
    assert Pow2(16) == 0x10000;
    Pow2Add(16, 16);
    assert Pow2(32) == 0x100000000;
    Pow2Add(32, 32);
    assert Pow2(64) == 0x10000000000000000;
    Pow2Add(64, 64);
    assert Pow2(128) == 0x100000000000000000000000000000000;
    Pow2Add(128, 128);
    assert Pow2(256) == 0x10000000000000000000000000000000000000000000000000000000000000000;
    Pow2Add(256, 256);
    assert Pow2(512) == 0x100000000000000000000000000000000000000000000000000000000000000000000000000000000000000000000000000000000000000000000000000000000;
    Pow2Add(512, 512);
    assert Pow2(1024) == 0x10000000000000000000000000000000000000000000000000000000000000000000000000000000000000000000000000000000000000000000000000000000000000000000000000000000000000000000000000000000000000000000000000000000000000000000000000000000000000000000000000000000000000000;
    Pow2Add(2, 8);
    assert Pow2(10) == 0x400;
    Pow2Add(10, 64);
    assert Pow2(74) == 0x4000000000000000000;
    Pow2Add(74, 128);
    assert Pow2(202) == 0x400000000000000000000000000000000000000000000000000;
    Pow2Add(202, 256);
    assert Pow2(458) == 0x4000000000000000000000000000000000000000000000000000000000000000000000000000000000000000000000000000000000000000000;
    Pow2Add(458, 512);
    assert Pow2(970) == 0x400000000000000000000000000000000000000000000000000000000000000000000000000000000000000000000000000000000000000000000000000000000000000000000000000000000000000000000000000000000000000000000000000000000000000000000000000000000000000000000000000;
  }

  /** The integer converts to a finite double. */
  predicate ConvertsToFloat(x: int) {
    -FloatOverflowBound < x < FloatOverflowBound
  }

  function Abs(x: real): real {
    if x < 0.0 then -x else x
  }

  /** The timestamp is within `MaxSkew` seconds of `now`, either side, bounds included. */
  predicate Fresh(now: real, seconds: int) {
    !(Abs(now - seconds as real) > MaxSkew as real)
  }

  /** The signature header, or "" when it is missing. */
  function SignatureHeader(req: Request): string {
    if req.signature.Some? then req.signature.value else ""
  }

  /** A 403 with `text`, reporting `text` to the "error" handlers. */
  function Reject(reg: Registry, text: string): Outcome {
    Responded(Response(403, text, Some(TextPlain), map[], Dispatch(reg, ErrorEvent, AppException(text))))
  }

  /** The request passes every check made before its body is parsed. */
  predicate Authentic(mac: HexHmacSha256, secret: string, req: Request, now: real) {
    && req.verb == "POST"
    && req.timestamp.Some?
    && req.timestamp.value.seconds.Some?
    && ConvertsToFloat(req.timestamp.value.seconds.value)
    && Fresh(now, req.timestamp.value.seconds.value)
    && SignatureHeader(req) == ExpectedSignature(mac, secret, req.timestamp.value.raw, req.body)
  }

  /** The envelope is a challenge or carries a typed event. */
  predicate Classified(env: Envelope) {
    env.challenge.Some? || (env.event.Some? && env.event.value.eventType.Some?)
  }

  /** The texts of the four rejections. */
  predicate IsRejectionText(text: string) {
    text in {MissingTimestampText, StaleTimestampText, BadSignatureText, NoEventText}
  }

  /**
   * `endpoint`: method, timestamp presence, freshness, signature, challenge,
   * typed event, and otherwise "no event". `poweredBy` is the value of the
   * `X-Slack-Powered-By` header.
   */
  function Respond(mac: HexHmacSha256, secret: string, poweredBy: string, reg: Registry, req: Request, now: real): (o: Outcome)
    ensures o.Responded? ==> o.response.status in {200, 403, 404}
    ensures o.Responded? && o.response.status == 404 <==> req.verb != "POST"
    ensures o.Responded? && o.response.status == 403 ==>
      && IsRejectionText(o.response.content)
      && o.response.background == Dispatch(reg, ErrorEvent, AppException(o.response.content))
  {
    if req.verb != "POST" then
      Responded(Response(404, NotFoundText, Some(TextPlain), map[], []))
    else if req.timestamp.None? then
      Reject(reg, MissingTimestampText)
    else if req.timestamp.value.seconds.None? then
      Raised(TimestampNotInteger)
    else if !ConvertsToFloat(req.timestamp.value.seconds.value) then
      Raised(TimestampBeyondFloat)
    else if !Fresh(now, req.timestamp.value.seconds.value) then
      Reject(reg, StaleTimestampText)
    else match Verify(mac, secret, req.timestamp.value.raw, req.body, SignatureHeader(req))
      case None => Raised(SignatureNotAscii)
      case Some(false) => Reject(reg, BadSignatureText)
      case Some(true) =>
        match req.json
        case None => Raised(BodyNotJson)
        case Some(env) =>
          if env.challenge.Some? then
            Responded(Response(200, env.challenge.value, Some(ApplicationJson), map[],
              Dispatch(reg, ChallengeEvent, Payload(env))))
          else if env.event.Some? && env.event.value.eventType.Some? then
            Responded(Response(200, "", None, map[PoweredByHeader := poweredBy],
              Dispatch(reg, env.event.value.eventType.value, Payload(env))))
          else
            Reject(reg, NoEventText)
  }

  /** Anything but POST gets the fixed 404 and schedules nothing. */
  lemma NotPostIsNotFound(mac: HexHmacSha256, secret: string, poweredBy: string, reg: Registry, req: Request, now: real)
    requires req.verb != "POST"
    ensures Respond(mac, secret, poweredBy, reg, req, now)
      == Responded(Response(404, NotFoundText, Some(TextPlain), map[], []))
  {
  }

  /** A POST without a timestamp header is refused whatever else it carries. */
  lemma MissingTimestampRejected(mac: HexHmacSha256, secret: string, poweredBy: string, reg: Registry, req: Request, now: real)
    requires req.verb == "POST" && req.timestamp.None?
    ensures Respond(mac, secret, poweredBy, reg, req, now) == Reject(reg, MissingTimestampText)
  {
  }

  /** A timestamp more than five minutes away from the clock is refused before the signature is looked at. */
  lemma StaleTimestampRejected(mac: HexHmacSha256, secret: string, poweredBy: string, reg: Registry, req: Request, now: real, seconds: int)
    requires req.verb == "POST" && req.timestamp.Some? && req.timestamp.value.seconds == Some(seconds)
    requires ConvertsToFloat(seconds)
    requires now - seconds as real > 300.0 || seconds as real - now > 300.0
    ensures Respond(mac, secret, poweredBy, reg, req, now) == Reject(reg, StaleTimestampText)
  {
  }

  /** An integer timestamp too large for a float makes the freshness check raise; no "error" task is scheduled. */
  lemma OversizedTimestampRaises(mac: HexHmacSha256, secret: string, poweredBy: string, reg: Registry, req: Request, now: real, seconds: int)
    requires req.verb == "POST" && req.timestamp.Some? && req.timestamp.value.seconds == Some(seconds)
    requires seconds >= Pow2(1024) - Pow2(970) || seconds <= Pow2(970) - Pow2(1024)
    ensures Respond(mac, secret, poweredBy, reg, req, now) == Raised(TimestampBeyondFloat)
  {
    FloatOverflowBoundIs();
  }

  /** A timestamp exactly five minutes away is still fresh. */
  lemma FreshnessBoundsIncluded(seconds: int)
    ensures Fresh(seconds as real + 300.0, seconds) && Fresh(seconds as real - 300.0, seconds)
    ensures !Fresh(seconds as real + 300.5, seconds) && !Fresh(seconds as real - 300.5, seconds)
  {
  }

  /** A fresh request whose (ASCII) signature does not match is refused. */
  lemma BadSignatureRejected(mac: HexHmacSha256, secret: string, poweredBy: string, reg: Registry, req: Request, now: real)
    requires req.verb == "POST" && req.timestamp.Some? && req.timestamp.value.seconds.Some?
    requires ConvertsToFloat(req.timestamp.value.seconds.value)
    requires Fresh(now, req.timestamp.value.seconds.value)
    requires IsAscii(SignatureHeader(req))
    requires SignatureHeader(req) != ExpectedSignature(mac, secret, req.timestamp.value.raw, req.body)
    ensures Respond(mac, secret, poweredBy, reg, req, now) == Reject(reg, BadSignatureText)
  {
  }

  /** A request without a signature header is refused once its timestamp is fresh. */
  lemma MissingSignatureRejected(mac: HexHmacSha256, secret: string, poweredBy: string, reg: Registry, req: Request, now: real)
    requires req.verb == "POST" && req.timestamp.Some? && req.timestamp.value.seconds.Some?
    requires ConvertsToFloat(req.timestamp.value.seconds.value)
    requires Fresh(now, req.timestamp.value.seconds.value)
    requires req.signature.None?
    ensures Respond(mac, secret, poweredBy, reg, req, now) == Reject(reg, BadSignatureText)
  {
    MalformedSignatureRejected(mac, secret, req.timestamp.value.raw, req.body, "");
  }

  /** A genuine challenge gets its value echoed as JSON, even when the envelope also carries an event. */
  lemma ChallengeEchoed(mac: HexHmacSha256, secret: string, poweredBy: string, reg: Registry, req: Request, now: real, env: Envelope)
    requires Authentic(mac, secret, req, now) && req.json == Some(env) && env.challenge.Some?
    ensures Respond(mac, secret, poweredBy, reg, req, now)
      == Responded(Response(200, env.challenge.value, Some(ApplicationJson), map[],
           Dispatch(reg, ChallengeEvent, Payload(env))))
  {
  }

  /** A genuine typed event gets an empty 200 with the powered-by header and runs that type's handlers on the envelope. */
  lemma EventDispatched(mac: HexHmacSha256, secret: string, poweredBy: string, reg: Registry, req: Request, now: real, env: Envelope, t: EventType)
    requires Authentic(mac, secret, req, now) && req.json == Some(env)
    requires env.challenge.None? && env.event == Some(EventObject(Some(t)))
    ensures Respond(mac, secret, poweredBy, reg, req, now)
      == Responded(Response(200, "", None, map[PoweredByHeader := poweredBy], Dispatch(reg, t, Payload(env))))
  {
  }

  /** A genuine envelope with neither a challenge nor an event type is refused. */
  lemma NoEventRejected(mac: HexHmacSha256, secret: string, poweredBy: string, reg: Registry, req: Request, now: real, env: Envelope)
    requires Authentic(mac, secret, req, now) && req.json == Some(env) && !Classified(env)
    ensures Respond(mac, secret, poweredBy, reg, req, now) == Reject(reg, NoEventText)
  {
  }

  /** Status 200 exactly when the request is authentic and its body a challenge or a typed event. */
  lemma AcceptedIffAuthentic(mac: HexHmacSha256, secret: string, poweredBy: string, reg: Registry, req: Request, now: real)
    ensures var o := Respond(mac, secret, poweredBy, reg, req, now);
      (o.Responded? && o.response.status == 200)
      <==> (Authentic(mac, secret, req, now) && req.json.Some? && Classified(req.json.value))
  {
  }

  /**
   * Handlers only ever receive the envelope of an authentic request; every other
   * scheduled task is an "error" handler receiving the rejection's exception.
   */
  lemma PayloadOnlyWhenAuthentic(mac: HexHmacSha256, secret: string, poweredBy: string, reg: Registry, req: Request, now: real)
    ensures var o := Respond(mac, secret, poweredBy, reg, req, now);
      o.Responded? ==> forall t | t in o.response.background ::
        (t.arg.Payload? ==> Authentic(mac, secret, req, now) && req.json == Some(t.arg.envelope))
        && (t.arg.AppException? ==> o.response.status == 403 && t.arg.message == o.response.content)
  {
    var o := Respond(mac, secret, poweredBy, reg, req, now);
    if o.Responded? && o.response.status == 403 {
      SnapshotArgs(EntriesOf(reg, ErrorEvent), AppException(o.response.content));
    } else if o.Responded? && o.response.status == 200 {
      var env := req.json.value;
      if env.challenge.Some? {
        SnapshotArgs(EntriesOf(reg, ChallengeEvent), Payload(env));
      } else {
        SnapshotArgs(EntriesOf(reg, env.event.value.eventType.value), Payload(env));
      }
    }
  }

  /** The exceptions the endpoint lets through, each exactly when its check is reached and fails. */
  lemma FaultsPropagate(mac: HexHmacSha256, secret: string, poweredBy: string, reg: Registry, req: Request, now: real)
    ensures var o := Respond(mac, secret, poweredBy, reg, req, now);
      && (o == Raised(TimestampNotInteger)
          <==> req.verb == "POST" && req.timestamp.Some? && req.timestamp.value.seconds.None?)
      && (o == Raised(TimestampBeyondFloat)
          <==> && req.verb == "POST" && req.timestamp.Some? && req.timestamp.value.seconds.Some?
               && !ConvertsToFloat(req.timestamp.value.seconds.value))
      && (o == Raised(SignatureNotAscii)
          <==> && req.verb == "POST" && req.timestamp.Some? && req.timestamp.value.seconds.Some?
               && ConvertsToFloat(req.timestamp.value.seconds.value)
               && Fresh(now, req.timestamp.value.seconds.value) && !IsAscii(SignatureHeader(req)))
      && (o == Raised(BodyNotJson) <==> Authentic(mac, secret, req, now) && req.json.None?)
  {
  }
}
