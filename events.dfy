/** Vocabulary shared by the handler registry, the dispatcher and the endpoint. */
module Events {

  datatype Option<+T> = None | Some(value: T)

  /** A registry key: an event type sent by the platform, or one of the reserved keys below. */
  type EventType = string

  /** Key under which request-validation failures are reported. */
  const ErrorEvent: EventType := "error"

  /** Key under which URL-verification challenges are reported. */
  const ChallengeEvent: EventType := "challenge"

  /** The identity of a user callable, as used for registration and removal. */
  datatype Handler = Handler(id: nat)

  /** The callable the registry actually runs for one registration. */
  datatype Invocable =
    | Direct(handler: Handler)                      // registered with `on`: the handler itself
    | OnceWrap(event: EventType, handler: Handler)  // made by `once`: removes `handler` from `event`, then calls it

  /** One registration of an ordered per-type dictionary: registration key -> invocable. */
  datatype Entry = Entry(key: Handler, run: Invocable)

  /** The `event` object of an envelope; only its `type` key is inspected. */
  datatype EventObject = EventObject(eventType: Option<EventType>)

  /** A parsed JSON request body, reduced to the two top-level keys the endpoint inspects. */
  datatype Envelope = Envelope(challenge: Option<string>, event: Option<EventObject>)

  /** The argument a handler is called with. */
  datatype Arg =
    | AppException(message: string)  // a SlackEventAppException carrying `message`
    | Payload(envelope: Envelope)    // the whole parsed body

  /** One unit of background work: an invocable and the argument it is called with. */
  datatype Task = Task(run: Invocable, arg: Arg)
}
