/**
 * The handler registry as a value: event type -> ordered entries. Looking up
 * a type that was never registered gives no entries. This module also holds
 * the dispatch snapshot and what happens when one scheduled task runs.
 */
module Registry {
  import opened Events
  import opened OrderedEntries

  type Registry = map<EventType, seq<Entry>>

  /** The entries of event type `e`; none for a type never registered. */
  function EntriesOf(reg: Registry, e: EventType): seq<Entry> {
    if e in reg then reg[e] else []
  }

  /** An entry runs its own key, and a one-shot wrapper removes itself from the type it is filed under. */
  predicate Fits(e: EventType, x: Entry) {
    x.run.handler == x.key && (x.run.OnceWrap? ==> x.run.event == e)
  }

  predicate WellFormedEntries(e: EventType, s: seq<Entry>) {
    UniqueKeys(s) && forall i | 0 <= i < |s| :: Fits(e, s[i])
  }

  /** The registry invariant: unique keys per type, every entry fitting its type. */
  predicate WellFormed(reg: Registry) {
    forall e | e in reg :: WellFormedEntries(e, reg[e])
  }

  /** One task per entry, in insertion order, each carrying `arg`. */
  function Snapshot(s: seq<Entry>, arg: Arg): seq<Task> {
    if s == [] then [] else [Task(s[0].run, arg)] + Snapshot(s[1..], arg)
  }

  /** `_tasks_from_event(e, arg)` on the registry value `reg`. */
  function Dispatch(reg: Registry, e: EventType, arg: Arg): seq<Task> {
    Snapshot(EntriesOf(reg, e), arg)
  }

  /** The snapshot has one task per entry, in the entries' order, each with `arg`. */
  lemma {:induction false} SnapshotAt(s: seq<Entry>, arg: Arg)
    ensures |Snapshot(s, arg)| == |s|
    ensures forall i | 0 <= i < |s| :: Snapshot(s, arg)[i] == Task(s[i].run, arg)
  {
    if s != [] {
      SnapshotAt(s[1..], arg);
    }
  }

  /** Every task of a snapshot carries the dispatch argument. */
  lemma SnapshotArgs(s: seq<Entry>, arg: Arg)
    ensures forall t | t in Snapshot(s, arg) :: t.arg == arg
  {
    SnapshotAt(s, arg);
  }

  /** Taking one more entry adds its task at the end. */
  lemma SnapshotAppend(s: seq<Entry>, x: Entry, arg: Arg)
    ensures Snapshot(s + [x], arg) == Snapshot(s, arg) + [Task(x.run, arg)]
  {
    SnapshotAt(s, arg);
    SnapshotAt(s + [x], arg);
  }

  /** A handler being called, and with what. */
  datatype Call = Call(handler: Handler, arg: Arg)

  /** What running one task does: the call it makes, if any, and the registry afterwards. */
  datatype Fired = Fired(called: Option<Call>, after: Registry)

  /**
   * Running one scheduled task, `inv` applied to `arg`. A direct handler is called and the registry is untouched.
   * A one-shot wrapper first removes its key from its type; when the key is no longer
   * there the removal raises and the handler is not called.
   */
  function Fire(reg: Registry, inv: Invocable, arg: Arg): (r: Fired)
    ensures r.called.Some? ==> r.called.value == Call(inv.handler, arg)
    ensures r.called.None? <==> inv.OnceWrap? && inv.handler !in Keys(EntriesOf(reg, inv.event))
    ensures inv.Direct? || r.called.None? ==> r.after == reg
    ensures inv.OnceWrap? ==> forall d | d != inv.event :: EntriesOf(r.after, d) == EntriesOf(reg, d)
    ensures inv.OnceWrap? && r.called.Some? ==>
      EntriesOf(r.after, inv.event) == Delete(EntriesOf(reg, inv.event), inv.handler)
  {
    match inv
    case Direct(h) => Fired(Some(Call(h, arg)), reg)
    case OnceWrap(e, h) =>
      var s := EntriesOf(reg, e);
      if h in Keys(s) then Fired(Some(Call(h, arg)), reg[e := Delete(s, h)])
      else Fired(None, reg)
  }

  /** Adding a fitting entry keeps the registry well formed. */
  lemma PutWellFormed(reg: Registry, e: EventType, x: Entry)
    requires WellFormed(reg) && Fits(e, x)
    ensures WellFormed(reg[e := Put(EntriesOf(reg, e), x.key, x.run)])
  {
    var s := EntriesOf(reg, e);
    var t := Put(s, x.key, x.run);
    PutUnique(s, x.key, x.run);
    var i := IndexOf(s, x.key);
    assert forall j | 0 <= j < |t| :: t[j] == if j == i then x else s[j];
  }

  /** Removing an entry keeps the registry well formed. */
  lemma DeleteWellFormed(reg: Registry, e: EventType, k: Handler)
    requires WellFormed(reg) && k in Keys(EntriesOf(reg, e))
    ensures WellFormed(reg[e := Delete(EntriesOf(reg, e), k)])
  {
    var s := EntriesOf(reg, e);
    DeleteRemoves(s, k);
    var i := IndexOf(s, k);
    var t := Delete(s, k);
    assert forall j | 0 <= j < |t| :: t[j] == if j < i then s[j] else s[j + 1];
  }

  /** Running any task keeps the registry well formed. */
  lemma FireWellFormed(reg: Registry, inv: Invocable, arg: Arg)
    requires WellFormed(reg)
    ensures WellFormed(Fire(reg, inv, arg).after)
  {
    if inv.OnceWrap? && inv.handler in Keys(EntriesOf(reg, inv.event)) {
      DeleteWellFormed(reg, inv.event, inv.handler);
    }
  }

  /**
   * A one-shot handler runs at most once: after its wrapper has called it, its key is gone
   * from its type, no task of a later dispatch of that type calls it, and running the same
   * wrapper again (a task scheduled by an earlier dispatch) raises before calling it.
   */
  lemma {:induction false} OnceRunsAtMostOnce(reg: Registry, e: EventType, h: Handler, arg: Arg, later: Arg)
    requires WellFormed(reg)
    ensures var first := Fire(reg, OnceWrap(e, h), arg);
      first.called.Some? ==>
        && h !in Keys(EntriesOf(first.after, e))
        && (forall t | t in Dispatch(first.after, e, later) :: t.run.handler != h)
        && Fire(first.after, OnceWrap(e, h), later).called.None?
  {
    var first := Fire(reg, OnceWrap(e, h), arg);
    if first.called.Some? {
      var s := EntriesOf(reg, e);
      assert e in reg;
      DeleteRemoves(s, h);
      DeleteWellFormed(reg, e, h);
      var t := EntriesOf(first.after, e);
      assert t == Delete(s, h);
      SnapshotAt(t, later);
      forall task | task in Dispatch(first.after, e, later)
        ensures task.run.handler != h
      {
        var j :| 0 <= j < |t| && Dispatch(first.after, e, later)[j] == task;
        assert Fits(e, t[j]);
        assert Keys(t)[j] == t[j].key;
      }
    }
  }

  /** The public operations on the registry, and running one scheduled task. */
  datatype Operation =
    | OnOp(event: EventType, handler: Handler)
    | OnceOp(event: EventType, handler: Handler)
    | RemoveOp(event: EventType, handler: Handler)
    | RemoveAllOp(only: Option<EventType>)
    | RunOp(task: Task)

  /** `op` registers `h` under `e` again. */
  predicate Reregisters(op: Operation, e: EventType, h: Handler) {
    (op.OnOp? || op.OnceOp?) && op.event == e && op.handler == h
  }

  /** `op` runs the one-shot wrapper of `h` for `e`. */
  predicate RunsWrapper(op: Operation, e: EventType, h: Handler) {
    op.RunOp? && op.task.run == OnceWrap(e, h)
  }

  /** One operation: its handler call, if any, and the registry afterwards. A failing removal changes nothing. */
  function Apply(reg: Registry, op: Operation): (r: Fired)
    ensures r.called.Some? ==> op.RunOp? && r.called.value == Call(op.task.run.handler, op.task.arg)
    ensures op.RemoveOp? ==> (r.after == reg <==> op.handler !in Keys(EntriesOf(reg, op.event)))
  {
    match op
    case OnOp(e, f) => Fired(None, reg[e := Put(EntriesOf(reg, e), f, Direct(f))])
    case OnceOp(e, f) => Fired(None, reg[e := Put(EntriesOf(reg, e), f, OnceWrap(e, f))])
    case RemoveOp(e, f) =>
      if f in Keys(EntriesOf(reg, e)) then Fired(None, reg[e := Delete(EntriesOf(reg, e), f)])
      else Fired(None, reg)
    case RemoveAllOp(only) =>
      if only.Some? then Fired(None, reg[only.value := []]) else Fired(None, map[])
    case RunOp(t) => Fire(reg, t.run, t.arg)
  }

  /** The registry after a sequence of operations. */
  function ApplyAll(reg: Registry, ops: seq<Operation>): Registry
    decreases |ops|
  {
    if ops == [] then reg else ApplyAll(Apply(reg, ops[0]).after, ops[1..])
  }

  /** How many times, along `ops`, the one-shot wrapper of `h` for `e` calls `h`. */
  function WrapperCalls(reg: Registry, ops: seq<Operation>, e: EventType, h: Handler): nat
    decreases |ops|
  {
    if ops == [] then 0
    else
      var step := Apply(reg, ops[0]);
      var here := if RunsWrapper(ops[0], e, h) && step.called.Some? then 1 else 0;
      here + WrapperCalls(step.after, ops[1..], e, h)
  }

  /** Every operation keeps the registry invariant. */
  lemma ApplyWellFormed(reg: Registry, op: Operation)
    requires WellFormed(reg)
    ensures WellFormed(Apply(reg, op).after)
  {
    match op
    case OnOp(e, f) => PutWellFormed(reg, e, Entry(f, Direct(f)));
    case OnceOp(e, f) => PutWellFormed(reg, e, Entry(f, OnceWrap(e, f)));
    case RemoveOp(e, f) =>
      if f in Keys(EntriesOf(reg, e)) {
        DeleteWellFormed(reg, e, f);
      }
    case RemoveAllOp(only) =>
    case RunOp(t) => FireWellFormed(reg, t.run, t.arg);
  }

  /** An operation that does not register `h` under `e` never makes `h` a key of `e`. */
  lemma ApplyKeepsAbsent(reg: Registry, op: Operation, e: EventType, h: Handler)
    requires WellFormed(reg)
    requires h !in Keys(EntriesOf(reg, e)) && !Reregisters(op, e, h)
    ensures h !in Keys(EntriesOf(Apply(reg, op).after, e))
  {
    var s := EntriesOf(reg, e);
    match op
    case OnOp(d, f) =>
      if d == e { PutKeys(s, f, Direct(f)); }
    case OnceOp(d, f) =>
      if d == e { PutKeys(s, f, OnceWrap(d, f)); }
    case RemoveOp(d, f) =>
      if d == e && f in Keys(s) { DeleteRemoves(s, f); }
    case RemoveAllOp(only) =>
    case RunOp(t) =>
      if t.run.OnceWrap? && t.run.event == e && t.run.handler in Keys(s) {
        DeleteRemoves(s, t.run.handler);
      }
  }

  /** While `h` is not a key of `e` and nobody registers it there again, its one-shot wrapper never calls it. */
  lemma {:induction false} AbsentNeverCalled(reg: Registry, ops: seq<Operation>, e: EventType, h: Handler)
    requires WellFormed(reg) && h !in Keys(EntriesOf(reg, e))
    requires forall i | 0 <= i < |ops| :: !Reregisters(ops[i], e, h)
    ensures WrapperCalls(reg, ops, e, h) == 0
    ensures h !in Keys(EntriesOf(ApplyAll(reg, ops), e))
    decreases |ops|
  {
    if ops != [] {
      var step := Apply(reg, ops[0]);
      assert !Reregisters(ops[0], e, h);
      ApplyWellFormed(reg, ops[0]);
      ApplyKeepsAbsent(reg, ops[0], e, h);
      AbsentNeverCalled(step.after, ops[1..], e, h);
    }
  }

  /**
   * A handler registered with `once` is called by its wrapper at most once, along
   * any interleaving of dispatched tasks, registrations of other keys, removals and
   * clears, as long as it is not registered under the same type again.
   */
  lemma {:induction false} OnceWrapperCallsAtMostOnce(reg: Registry, ops: seq<Operation>, e: EventType, h: Handler)
    requires WellFormed(reg)
    requires forall i | 0 <= i < |ops| :: !Reregisters(ops[i], e, h)
    ensures WrapperCalls(reg, ops, e, h) <= 1
    ensures h !in Keys(EntriesOf(reg, e)) ==> WrapperCalls(reg, ops, e, h) == 0
    decreases |ops|
  {
    if h !in Keys(EntriesOf(reg, e)) {
      AbsentNeverCalled(reg, ops, e, h);
    } else if ops != [] {
      var step := Apply(reg, ops[0]);
      ApplyWellFormed(reg, ops[0]);
      if RunsWrapper(ops[0], e, h) && step.called.Some? {
        OnceRunsAtMostOnce(reg, e, h, ops[0].task.arg, ops[0].task.arg);
        AbsentNeverCalled(step.after, ops[1..], e, h);
      } else {
        OnceWrapperCallsAtMostOnce(step.after, ops[1..], e, h);
      }
    }
  }
}
