# slackevent-responder: verified model of the event receiver

This project models `SlackEventApp`, the webhook receiver of slackevent-responder.
The receiver authenticates event notifications sent by Slack and dispatches them
to locally registered handler functions. The model has three parts.

- **Handler registry.** `on`, `once`, `_add_handler`, `remove_handler`,
  `remove_all_handlers` and `handlers` work on a dictionary. It maps each event type
  to an insertion-ordered dictionary from a registration key (the user's handler) to
  the invocable that is actually run. For `on` the invocable is the handler itself.
  For `once` it is a wrapper that removes its own key and then calls the handler.
  - `OrderedEntries` gives the ordered-dictionary semantics: overwrite in place, append, and pop.
  - `Registry` holds the registry as a value and its well-formedness invariant. It also
    holds the dispatch snapshot and what running one scheduled task does.
  - `Application.SlackEventApp` is the object. Its `handlerMap` field is reassigned by its methods.
- **Dispatch snapshot.** `_tasks_from_event` copies the invocables of one event type
  in insertion order and pairs each with the dispatch argument. It is
  `SlackEventApp.TasksFromEvent`, a loop proved equal to `Registry.Dispatch`. The
  result is a sequence value, so later changes to the registry cannot alter it.
- **Request verification.** `verify_signature` and `endpoint` are `Signature.Verify`
  and `Responder.Respond`. The endpoint is a pure function of:
  - the request (method, timestamp header, signature header, raw body, parsed envelope);
  - the clock reading `now`;
  - the registry value.

  It returns either a response or an exception that the endpoint does not catch. A
  response carries the status, body, media type, extra headers and background task
  list. The checks run in this order: method, timestamp presence, timestamp
  parse, conversion of the timestamp to a float, freshness window (300 seconds, bounds included), signature, JSON parse,
  challenge, typed event, and otherwise "no event".

HMAC-SHA256 (RFC 2104 over FIPS 180-4) with hex encoding is a parameter of type
`Signature.HexHmacSha256`. Its results are constrained only to be 64 lower-case hex
digits. What is proved is how the signed string `"v0:" + timestamp + ":" + body` is
built and how the received header is compared with `"v0=" + digest`.

Where the code goes beyond a plain boolean comparison, the model follows the code:
- `hmac.compare_digest` raises a TypeError when given a `str` holding a non-ASCII
  character. A non-ASCII signature header therefore makes the endpoint raise instead
  of answering 403 (`Fault.SignatureNotAscii`).
- A non-integer timestamp header and a body that is not JSON also raise
  (`TimestampNotInteger`, `BodyNotJson`). They are not turned into 403 responses.
- The freshness check subtracts the integer timestamp from the float `time()`.
  Python raises OverflowError when that integer is at least 2^1024 - 2^970 in
  magnitude, the point where rounding it to a double overflows. Such a request
  raises (`TimestampBeyondFloat`) instead of getting the stale-timestamp 403.

## Model

| member | source | states |
|---|---|---|
| OrderedEntries.IndexOf | src/slackevent_responder/application.py:204 | The position of a key is the first entry holding it, or the length when the key is absent, exactly when it is not among the keys |
| OrderedEntries.PutKeys | src/slackevent_responder/application.py:201-204 | Assigning a key that is present leaves the key order unchanged (overwrite in place, no duplicate); a new key is appended last |
| OrderedEntries.PutLookup | src/slackevent_responder/application.py:201-204 | After the assignment the key maps to the new invocable and every other key keeps its invocable |
| OrderedEntries.PutUnique | src/slackevent_responder/application.py:201-204 | Assignment never creates a second entry for a key |
| OrderedEntries.PutIdempotent | src/slackevent_responder/application.py:201-204 | Registering the same key and invocable twice is the same as once |
| OrderedEntries.DeleteKeys | src/slackevent_responder/application.py:215-216 | `pop` removes the key at its position and the other keys keep their relative order |
| OrderedEntries.DeleteRemoves | src/slackevent_responder/application.py:215-216 | With unique keys, after `pop` the key is gone, every other key is still present, and keys stay unique |
| OrderedEntries.DeleteLookup | src/slackevent_responder/application.py:215-216 | `pop` does not change the invocable of any other key |
| OrderedEntries.DeleteUndoesPut | src/slackevent_responder/application.py:201-216 | Popping a key that was just added (and was absent before) restores the previous entries |
| Registry.SnapshotAt | src/slackevent_responder/application.py:206-213 | The dispatch snapshot has one task per registered invocable, in insertion order, each carrying the dispatch argument |
| Registry.SnapshotAppend | src/slackevent_responder/application.py:209-211 | Adding one more invocable to the snapshot adds its task at the end |
| Registry.SnapshotArgs | src/slackevent_responder/application.py:210-211 | Every task of a dispatch carries the dispatch argument |
| Registry.Fire | src/slackevent_responder/application.py:178-199 | Running a task calls its handler with the task's argument; a direct handler always runs and leaves the registry alone; a once-wrapper fails without calling, and changes nothing, exactly when its key is no longer registered under its event type; when it succeeds it pops exactly its own key from its own type and every other type keeps its entries |
| Registry.PutWellFormed | src/slackevent_responder/application.py:201-204 | Registering an entry that runs its own key keeps keys unique and every entry fitting its type |
| Registry.DeleteWellFormed | src/slackevent_responder/application.py:215-216 | Removing a handler keeps the registry invariant |
| Registry.FireWellFormed | src/slackevent_responder/application.py:178-199 | Running any task keeps the registry invariant |
| Registry.OnceRunsAtMostOnce | src/slackevent_responder/application.py:178-199 | After a once-wrapper has called its handler, the key is gone, no task of a later dispatch of that type calls the handler, and running the same wrapper again fails before calling it |
| Registry.Apply | src/slackevent_responder/application.py:159-222 | Of the registry operations (`on`, `once`, `remove_handler`, `remove_all_handlers`, running a task) only running a task calls a handler, and it calls the task's handler with the task's argument; a removal changes nothing exactly when the key is absent |
| Registry.ApplyWellFormed | src/slackevent_responder/application.py:159-222 | Every registry operation keeps the registry invariant |
| Registry.ApplyKeepsAbsent | src/slackevent_responder/application.py:159-222 | No operation other than registering `h` under `e` again makes `h` a key of `e` |
| Registry.AbsentNeverCalled | src/slackevent_responder/application.py:178-199 | Once `h` is not registered under `e`, its one-shot wrapper never calls it along any sequence of operations that does not register it there again, and it stays unregistered |
| Registry.OnceWrapperCallsAtMostOnce | src/slackevent_responder/application.py:173-199 | Along any sequence of dispatched tasks, registrations of other keys, removals and clears, the one-shot wrapper of `h` for `e` calls `h` at most once, and never if `h` was not registered to begin with |
| Signature.Verify | src/slackevent_responder/application.py:59-71 | The result is true iff the header equals "v0=" + hex HMAC of "v0:" + timestamp + ":" + body; the comparison raises iff the header holds a non-ASCII character |
| Signature.ExpectedIsAscii | src/slackevent_responder/application.py:64-69 | The expected signature is 67 ASCII characters starting with "v0=" |
| Signature.MalformedSignatureRejected | src/slackevent_responder/application.py:59-71 | An ASCII header of the wrong length or without the "v0=" prefix, including the empty header, is rejected whatever the MAC |
| Signature.ColonEndsTimestamp | src/slackevent_responder/application.py:64 | In the signed string the first ':' after the version prefix ends a colon-free timestamp |
| Signature.BaseStringInjective | src/slackevent_responder/application.py:64 | For colon-free timestamps, equal signed strings mean equal timestamps and bodies |
| Responder.Respond | src/slackevent_responder/application.py:73-157 | Statuses are 200, 403 or 404; 404 exactly for non-POST; every 403 carries one of the four rejection texts and schedules exactly the "error" handlers with that text |
| Responder.NotPostIsNotFound | src/slackevent_responder/application.py:74-80 | A non-POST request gets 404, "These are not the slackbots you're looking for.", text/plain, no tasks |
| Responder.MissingTimestampRejected | src/slackevent_responder/application.py:82-94 | A POST without a timestamp header gets 403 "Request doesn't contain timestamp header" whatever else it carries |
| Responder.FloatOverflowBoundIs | src/slackevent_responder/application.py:97 | The conversion limit used for the timestamp is exactly 2^1024 - 2^970 |
| Responder.StaleTimestampRejected | src/slackevent_responder/application.py:96-107 | A timestamp that converts to a float and is more than 300 seconds from the clock, either way, gets 403 "Invalid timestamp in request header" before the signature is checked |
| Responder.OversizedTimestampRaises | src/slackevent_responder/application.py:96-97 | An integer timestamp of magnitude at least 2^1024 - 2^970 makes the endpoint raise OverflowError instead of answering |
| Responder.FreshnessBoundsIncluded | src/slackevent_responder/application.py:97 | A timestamp exactly 300 seconds away passes and one 300.5 seconds away does not |
| Responder.BadSignatureRejected | src/slackevent_responder/application.py:109-126 | A fresh request whose ASCII signature differs from the expected one gets 403 "Invalid request signature" |
| Responder.MissingSignatureRejected | src/slackevent_responder/application.py:111-126 | A missing signature header counts as "" and is rejected with "Invalid request signature" |
| Responder.ChallengeEchoed | src/slackevent_responder/application.py:131-140 | An authentic envelope with a challenge gets 200, application/json, the challenge as body, and schedules the "challenge" handlers with the envelope, even when an event is also present |
| Responder.EventDispatched | src/slackevent_responder/application.py:142-148 | An authentic typed event gets 200, empty body, the X-Slack-Powered-By header, and schedules that type's handlers with the envelope |
| Responder.NoEventRejected | src/slackevent_responder/application.py:150-157 | An authentic envelope with neither a challenge nor an event type gets 403 "No event in request body" |
| Responder.AcceptedIffAuthentic | src/slackevent_responder/application.py:73-157 | Status 200 iff POST, timestamp present, integer, convertible to a float and fresh, signature matching, body JSON and a challenge or typed event |
| Responder.PayloadOnlyWhenAuthentic | src/slackevent_responder/application.py:73-157 | A handler receives the envelope only for an authentic request; every other task receives the exception of a 403 rejection |
| Responder.FaultsPropagate | src/slackevent_responder/application.py:97-129 | Each uncaught exception (non-integer timestamp, timestamp beyond float range, non-ASCII signature, non-JSON body) happens exactly when its check is reached and fails |
| Application.SlackEventApp.constructor | src/slackevent_responder/application.py:20-37 | A new receiver has an empty registry and keeps its secret, MAC, package info and path |
| Application.SlackEventApp.Handlers | src/slackevent_responder/application.py:224-225 | `handlers(e)` lists the registration keys of `e` in insertion order, and none for a never-registered type |
| Application.SlackEventApp.AddHandler | src/slackevent_responder/application.py:201-204 | The entry is assigned in place or appended; the key then maps to the given invocable; the invariant is kept |
| Application.SlackEventApp.On | src/slackevent_responder/application.py:159-171 | Returns `f`; `f` is listed for `e` (appended if new, same position if re-registered) and runs itself |
| Application.SlackEventApp.Once | src/slackevent_responder/application.py:173-199 | Returns `f`; `handlers(e)` lists `f` (not the wrapper) and `f`'s invocable is the self-removing wrapper for `e` |
| Application.SlackEventApp.RemoveHandler | src/slackevent_responder/application.py:215-216 | Fails, changing nothing, iff `f` is not registered for `e`; otherwise deletes exactly `f`, the remaining keys keep their order, other types are unchanged |
| Application.SlackEventApp.RemoveAllHandlers | src/slackevent_responder/application.py:218-222 | With a type, only that type becomes empty; without one, every type becomes empty |
| Application.SlackEventApp.TasksFromEvent | src/slackevent_responder/application.py:206-213 | The loop builds exactly the dispatch snapshot: one task per invocable of `e`, in insertion order, each with the argument |
| Application.SlackEventApp.Invoke | src/slackevent_responder/application.py:178-199 | Running a task does what `Registry.Fire` says: a once-wrapper calls `remove_handler` first and calls its handler only if that succeeds |
| Application.SlackEventApp.VerifySignature | src/slackevent_responder/application.py:59-71 | With the app's secret and MAC, true exactly when the header equals "v0=" + hex HMAC of the signed string; raises exactly for a non-ASCII header |
| Application.SlackEventApp.Endpoint | src/slackevent_responder/application.py:73-157 | 404 exactly for non-POST; 200 exactly for an authentic POST whose envelope has a challenge or a typed event; every 403 schedules the app's current "error" handlers with the rejection text |
| Application.OnceAcrossTwoDispatches | src/slackevent_responder/application.py:178-199 | A `once` handler dispatched twice before either task runs is called by the first task and not by the second |
| Application.RemoveOneOfTwo | tests/test_application.py:248-266 | With `on(h1)` then `once(h2)`, `handlers` is [h1, h2], and after removing h1 it is [h2] |
| Application.RemoveAllEmptiesEveryType | tests/test_application.py:287-308 | `remove_all_handlers()` empties the handler lists of every type |

## Left out

- Starlette routing and the `Request` and `Response` objects are left out: they are framework plumbing. The request is a datatype and the response is a returned value with the task list attached.
- `BackgroundTasks` execution is left out: the framework runs the tasks after the response is sent. Within one response it runs them in order and stops at the first exception. The model runs one task at a time (`Fire`, `Invoke`) and does not model running a whole list.
- `await request.body()` and the UTF-8 `.decode()`/`.encode()` calls are left out: the body is given as a string. The encoding of the secret and the signed string is folded into the MAC parameter.
- A body that is not valid UTF-8 makes `.decode()` (application.py:113) raise UnicodeDecodeError before the signature is compared. This fifth uncaught exception is not represented, because the body is already a string.
- HMAC-SHA256 and `hexdigest` are not implemented; they are a function parameter. The constant-time behaviour of `hmac.compare_digest` cannot be expressed; only its result and its TypeError on non-ASCII strings are modelled.
- `json.loads` is not modelled. The envelope is given already parsed and reduced to its `challenge` value and its `event.type`. JSON values that are not objects, and challenge or type values that are not strings, are not covered.
- `int(request_timestamp)` is not modelled: the header carries its text and, abstractly, the integer it parses to.
- `time()` is a `real` parameter `now`. The rounding of floating-point time is not modelled.
- `_get_package_info` is left out: it reads interpreter and OS details at run time. Its value is the constant `packageInfo`.
- The sync/async split in `once` (`asyncio.iscoroutinefunction`) is left out: both wrappers remove the key and then call the handler.
- The decorator forms of `on` and `once` (called without `f`) are left out: once applied, they register exactly as the direct call does.
- Event types are strings. The source accepts any hashable key, and `remove_all_handlers(None)` means "all types", so a type keyed `None` cannot be cleared on its own. The model uses an option argument instead.
- The `defaultdict` creates an empty entry when a missing type is looked up or removed from. This is not modelled: `handlers` and dispatch see no handlers either way.
- Application.SlackEventApp.RemoveHandler: the KeyError is modelled as `found == false` with the registry unchanged, not as an exception.
- `example/example.py` (app wiring, environment variables, the outbound Slack client, the server) and the test fixtures and helpers are not part of this model.
