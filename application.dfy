/**
 * The receiver object: its signing secret and the handler registry it owns and
 * mutates in place through `on`, `once`, `remove_handler` and `remove_all_handlers`.
 */
module Application {
  import opened Events
  import opened OrderedEntries
  import opened Registry
  import Signature
  import Responder

  class SlackEventApp {
    const slackEventPath: string
    const signingSecret: string
    /** hex(HMAC-SHA256(key, message)), supplied from outside. */
    const hexHmacSha256: Signature.HexHmacSha256
    /** The `X-Slack-Powered-By` value (client, runtime and OS names and versions). */
    const packageInfo: string
    /** event type -> ordered (registration key -> invocable) entries. */
    var handlerMap: Registry

    ghost predicate Valid()
      reads this
    {
      WellFormed(handlerMap)
    }

    constructor (signingSecret: string, hexHmacSha256: Signature.HexHmacSha256, packageInfo: string,
                 slackEventPath: string := "/slack/events")
      ensures Valid()
      ensures this.signingSecret == signingSecret && this.hexHmacSha256 == hexHmacSha256
      ensures this.packageInfo == packageInfo && this.slackEventPath == slackEventPath
      ensures handlerMap == map[]
    {
      this.slackEventPath := slackEventPath;
      this.signingSecret := signingSecret;
      this.hexHmacSha256 := hexHmacSha256;
      this.packageInfo := packageInfo;
      handlerMap := map[];
    }

    /** The entries of event type `e`. */
    function Entries(e: EventType): seq<Entry>
      reads this
    {
      EntriesOf(handlerMap, e)
    }

    /** `handlers(e)`: the registration keys of `e` in insertion order; none for an unknown type. */
    function Handlers(e: EventType): (hs: seq<Handler>)
      reads this
      ensures |hs| == |Entries(e)|
      ensures forall i | 0 <= i < |hs| :: hs[i] == Entries(e)[i].key
      ensures e !in handlerMap ==> hs == []
    {
      Keys(Entries(e))
    }

    /** `_add_handler(e, k, v)`: `self._handlers[e][k] = v`. */
    method AddHandler(e: EventType, k: Handler, v: Invocable)
      requires Valid() && Fits(e, Entry(k, v))
      modifies this
      ensures Valid()
      ensures handlerMap == old(handlerMap)[e := Put(old(Entries(e)), k, v)]
      ensures Handlers(e) == if k in old(Handlers(e)) then old(Handlers(e)) else old(Handlers(e)) + [k]
      ensures Lookup(Entries(e), k) == Some(v)
    {
      PutWellFormed(handlerMap, e, Entry(k, v));
      PutKeys(Entries(e), k, v);
      PutLookup(Entries(e), k, v, k);
      handlerMap := handlerMap[e := Put(Entries(e), k, v)];
    }

    /** `on(e, f)`: `f` runs on every dispatch of `e`; returns `f`. */
    method On(e: EventType, f: Handler) returns (r: Handler)
      requires Valid()
      modifies this
      ensures Valid() && r == f
      ensures handlerMap == old(handlerMap)[e := Put(old(Entries(e)), f, Direct(f))]
      ensures Handlers(e) == if f in old(Handlers(e)) then old(Handlers(e)) else old(Handlers(e)) + [f]
      ensures Lookup(Entries(e), f) == Some(Direct(f))
    {
      AddHandler(e, f, Direct(f));
      r := f;
    }

    /** `once(e, f)`: registers under key `f` a wrapper that removes `f` from `e` and then calls it; returns `f`. */
    method Once(e: EventType, f: Handler) returns (r: Handler)
      requires Valid()
      modifies this
      ensures Valid() && r == f
      ensures handlerMap == old(handlerMap)[e := Put(old(Entries(e)), f, OnceWrap(e, f))]
      ensures Handlers(e) == if f in old(Handlers(e)) then old(Handlers(e)) else old(Handlers(e)) + [f]
      ensures Lookup(Entries(e), f) == Some(OnceWrap(e, f))
    {
      AddHandler(e, f, OnceWrap(e, f));
      r := f;
    }

    /**
     * `remove_handler(e, f)`: deletes key `f` of `e`. `found` is false when `f` is not
     * registered for `e`; the source raises KeyError then, and nothing changes.
     */
    method RemoveHandler(e: EventType, f: Handler) returns (found: bool)
      requires Valid()
      modifies this
      ensures Valid()
      ensures found <==> f in old(Handlers(e))
      ensures found ==> handlerMap == old(handlerMap)[e := Delete(old(Entries(e)), f)]
      ensures !found ==> handlerMap == old(handlerMap)
      ensures found ==> var i := IndexOf(old(Entries(e)), f);
        Handlers(e) == old(Handlers(e))[..i] + old(Handlers(e))[i + 1..]
      ensures f !in Handlers(e)
    {
      var s := Entries(e);
      found := f in Keys(s);
      if found {
        DeleteRemoves(s, f);
        DeleteKeys(s, f);
        DeleteWellFormed(handlerMap, e, f);
        handlerMap := handlerMap[e := Delete(s, f)];
      }
    }

    /** `remove_all_handlers(e)` empties `e`; `remove_all_handlers()` empties every type. */
    method RemoveAllHandlers(e: Option<EventType>)
      requires Valid()
      modifies this
      ensures Valid()
      ensures e.Some? ==> handlerMap == old(handlerMap)[e.value := []]
      ensures e.None? ==> handlerMap == map[]
      ensures forall d :: Handlers(d) == if e.None? || e.value == d then [] else old(Handlers(d))
    {
      if e.Some? {
        handlerMap := handlerMap[e.value := []];
      } else {
        handlerMap := map[];
      }
    }

    /**
     * `_tasks_from_event(e, arg)`: copies the invocables of `e` and schedules each,
     * in insertion order, with `arg`. The result is a value: later changes to the
     * registry do not alter it.
     */
    method TasksFromEvent(e: EventType, arg: Arg) returns (tasks: seq<Task>)
      ensures tasks == Dispatch(handlerMap, e, arg)
      ensures |tasks| == |Handlers(e)|
      ensures forall i | 0 <= i < |tasks| :: tasks[i] == Task(Entries(e)[i].run, arg)
    {
      var entries := Entries(e);
      tasks := [];
      var i := 0;
      while i < |entries|
        invariant 0 <= i <= |entries|
        invariant tasks == Snapshot(entries[..i], arg)
      {
        SnapshotAppend(entries[..i], entries[i], arg);
        assert entries[..i + 1] == entries[..i] + [entries[i]];
        tasks := tasks + [Task(entries[i].run, arg)];
        i := i + 1;
      }
      assert entries[..i] == entries;
      SnapshotAt(entries, arg);
    }

    /**
     * Runs one scheduled task. A direct handler is called with `arg`. A one-shot wrapper
     * calls `remove_handler` first; if that raises, its handler is not called (`called` is None).
     */
    method Invoke(inv: Invocable, arg: Arg) returns (called: Option<Call>)
      requires Valid()
      modifies this
      ensures Valid()
      ensures Fired(called, handlerMap) == Fire(old(handlerMap), inv, arg)
    {
      match inv
      case Direct(h) =>
        called := Some(Call(h, arg));
      case OnceWrap(e, h) =>
        var found := RemoveHandler(e, h);
        called := if found then Some(Call(h, arg)) else None;
    }

    /**
     * `verify_signature(timestamp, body, signature)` with this app's secret: true exactly
     * for "v0=" and the hex HMAC of the base string, None when the comparison raises.
     */
    function VerifySignature(timestamp: string, body: string, signature: string): (r: Option<bool>)
      ensures r == Some(true) <==> signature == Signature.ExpectedSignature(hexHmacSha256, signingSecret, timestamp, body)
      ensures r.None? <==> !Signature.IsAscii(signature)
    {
      Signature.Verify(hexHmacSha256, signingSecret, timestamp, body, signature)
    }

    /**
     * `endpoint(request)` at clock reading `now`, against the current registry: it
     * answers 200 exactly for an authentic, classifiable POST, and every 403 schedules
     * this app's "error" handlers with the rejection text.
     */
    function Endpoint(request: Responder.Request, now: real): (o: Responder.Outcome)
      reads this
      ensures o.Responded? && o.response.status == 404 <==> request.verb != "POST"
      ensures (o.Responded? && o.response.status == 200)
        <==> (Responder.Authentic(hexHmacSha256, signingSecret, request, now)
              && request.json.Some? && Responder.Classified(request.json.value))
      ensures o.Responded? && o.response.status == 403 ==>
        o.response.background == Dispatch(handlerMap, ErrorEvent, AppException(o.response.content))
    {
      Responder.AcceptedIffAuthentic(hexHmacSha256, signingSecret, packageInfo, handlerMap, request, now);
      Responder.Respond(hexHmacSha256, signingSecret, packageInfo, handlerMap, request, now)
    }
  }

  /**
   * A one-shot handler registered once and dispatched twice before either task runs:
   * the first task calls it, the second raises in `remove_handler` and does not.
   */
  method OnceAcrossTwoDispatches(mac: Signature.HexHmacSha256, e: EventType, f: Handler, x: Arg, y: Arg)
    returns (first: Option<Call>, second: Option<Call>)
    ensures first == Some(Call(f, x))
    ensures second == None
  {
    var app := new SlackEventApp("secret", mac, "info");
    var _ := app.Once(e, f);
    var tasks1 := app.TasksFromEvent(e, x);
    var tasks2 := app.TasksFromEvent(e, y);
    assert app.Entries(e) == [Entry(f, OnceWrap(e, f))];
    first := app.Invoke(tasks1[0].run, tasks1[0].arg);
    second := app.Invoke(tasks2[0].run, tasks2[0].arg);
  }

  /**
   * Two handlers on one type, the first with `on` and the second with `once`:
   * both are listed in registration order, and removing the first leaves exactly the second.
   */
  method RemoveOneOfTwo(mac: Signature.HexHmacSha256, e: EventType, h1: Handler, h2: Handler)
    returns (registered: seq<Handler>, remaining: seq<Handler>)
    requires h1 != h2
    ensures registered == [h1, h2]
    ensures remaining == [h2]
  {
    var app := new SlackEventApp("secret", mac, "info");
    RegisterTwoRemoveFirst(e, h1, h2);
    var _ := app.On(e, h1);
    var _ := app.Once(e, h2);
    registered := app.Handlers(e);
    var found := app.RemoveHandler(e, h1);
    remaining := app.Handlers(e);
  }

  /** The entry-level facts behind `RemoveOneOfTwo`. */
  lemma RegisterTwoRemoveFirst(e: EventType, h1: Handler, h2: Handler)
    requires h1 != h2
    ensures var both := [Entry(h1, Direct(h1)), Entry(h2, OnceWrap(e, h2))];
      && EntriesOf(map[], e) == []
      && Put([], h1, Direct(h1)) == [Entry(h1, Direct(h1))]
      && Put([Entry(h1, Direct(h1))], h2, OnceWrap(e, h2)) == both
      && Keys(both) == [h1, h2]
      && Delete(both, h1) == [Entry(h2, OnceWrap(e, h2))]
      && Keys([Entry(h2, OnceWrap(e, h2))]) == [h2]
  {
    var both := [Entry(h1, Direct(h1)), Entry(h2, OnceWrap(e, h2))];
    IndexOfIsFirst([Entry(h1, Direct(h1))], h2, 1);
    IndexOfIsFirst(both, h1, 0);
  }

  /** `remove_all_handlers()` with no event type empties every type. */
  method RemoveAllEmptiesEveryType(mac: Signature.HexHmacSha256, e1: EventType, e2: EventType, h1: Handler, h2: Handler)
    returns (before1: seq<Handler>, after1: seq<Handler>, after2: seq<Handler>)
    ensures before1 != []
    ensures after1 == [] && after2 == []
  {
    var app := new SlackEventApp("secret", mac, "info");
    var _ := app.On(e1, h1);
    var _ := app.Once(e2, h2);
    before1 := app.Handlers(e1);
    app.RemoveAllHandlers(None);
    after1 := app.Handlers(e1);
    after2 := app.Handlers(e2);
  }
}
