/**
 * The insertion-ordered dictionary that holds one event type's registrations:
 * keys are handler identities, values the invocables run for them.
 * Positions are explicit: `IndexOf` finds a key, `Put` overwrites in place or
 * appends, `Delete` removes the entry and closes the gap.
 */
module OrderedEntries {
  import opened Events

  /** The keys in insertion order (`list(d.keys())`). */
  function Keys(s: seq<Entry>): seq<Handler> {
    seq(|s|, i requires 0 <= i < |s| => s[i].key)
  }

  /** At most one entry per key. */
  predicate UniqueKeys(s: seq<Entry>) {
    forall i, j | 0 <= i < j < |s| :: s[i].key != s[j].key
  }

  /** The position of key `k`, or `|s|` when `k` is absent. */
  function IndexOf(s: seq<Entry>, k: Handler): (i: nat)
    ensures i <= |s|
    ensures i < |s| ==> s[i].key == k
    ensures forall j | 0 <= j < i :: s[j].key != k
    ensures i == |s| <==> k !in Keys(s)
  {
    if s == [] then 0
    else if s[0].key == k then
      assert Keys(s)[0] == k;
      0
    else
      assert Keys(s) == [s[0].key] + Keys(s[1..]);
      1 + IndexOf(s[1..], k)
  }

  /** The invocable stored for `k` (`d.get(k)`). */
  function Lookup(s: seq<Entry>, k: Handler): Option<Invocable> {
    var i := IndexOf(s, k);
    if i < |s| then Some(s[i].run) else None
  }

  /** `d[k] = v`: an existing key keeps its position, a new key goes last. */
  function Put(s: seq<Entry>, k: Handler, v: Invocable): seq<Entry> {
    var i := IndexOf(s, k);
    if i < |s| then s[i := Entry(k, v)] else s + [Entry(k, v)]
  }

  /** `d.pop(k)` for a present key: the entry goes, the rest keep their order. */
  function Delete(s: seq<Entry>, k: Handler): seq<Entry>
    requires k in Keys(s)
  {
    var i := IndexOf(s, k);
    s[..i] + s[i + 1..]
  }

  /** Any position holding key `k` with no earlier `k` is the one `IndexOf` finds. */
  lemma IndexOfIsFirst(s: seq<Entry>, k: Handler, i: nat)
    requires i <= |s|
    requires i < |s| ==> s[i].key == k
    requires forall j | 0 <= j < i :: s[j].key != k
    ensures IndexOf(s, k) == i
  {
  }

  /** Registering a key: present keys are overwritten where they stand, new keys are appended. */
  lemma PutKeys(s: seq<Entry>, k: Handler, v: Invocable)
    ensures k in Keys(s) ==> Keys(Put(s, k, v)) == Keys(s)
    ensures k !in Keys(s) ==> Keys(Put(s, k, v)) == Keys(s) + [k]
    ensures |Put(s, k, v)| == if k in Keys(s) then |s| else |s| + 1
  {
    var i := IndexOf(s, k);
    if i < |s| {
      assert Keys(Put(s, k, v)) == Keys(s);
    } else {
      assert Keys(Put(s, k, v)) == Keys(s) + [k];
    }
  }

  /** After `Put`, `k` maps to `v` and every other key keeps its value. */
  lemma PutLookup(s: seq<Entry>, k: Handler, v: Invocable, other: Handler)
    ensures Lookup(Put(s, k, v), k) == Some(v)
    ensures other != k ==> Lookup(Put(s, k, v), other) == Lookup(s, other)
  {
    var t := Put(s, k, v);
    var i := IndexOf(s, k);
    PutKeys(s, k, v);
    IndexOfIsFirst(t, k, i);
    if other != k {
      var j := IndexOf(s, other);
      if j < |s| {
        IndexOfIsFirst(t, other, j);
      } else {
        IndexOfIsFirst(t, other, |t|);
      }
    }
  }

  /** `Put` never introduces a duplicate key. */
  lemma PutUnique(s: seq<Entry>, k: Handler, v: Invocable)
    requires UniqueKeys(s)
    ensures UniqueKeys(Put(s, k, v))
  {
    var t := Put(s, k, v);
    PutKeys(s, k, v);
    assert forall j | 0 <= j < |t| :: t[j].key == Keys(t)[j];
    assert forall j | 0 <= j < |s| :: s[j].key == Keys(s)[j];
  }

  /** Overwriting with the same value twice is the same as once. */
  lemma PutIdempotent(s: seq<Entry>, k: Handler, v: Invocable)
    ensures Put(Put(s, k, v), k, v) == Put(s, k, v)
  {
    var t := Put(s, k, v);
    PutKeys(s, k, v);
    IndexOfIsFirst(t, k, IndexOf(s, k));
  }

  /** Removing a key closes the gap: the other keys keep their relative order. */
  lemma DeleteKeys(s: seq<Entry>, k: Handler)
    requires k in Keys(s)
    ensures var i := IndexOf(s, k);
      Keys(Delete(s, k)) == Keys(s)[..i] + Keys(s)[i + 1..]
    ensures |Delete(s, k)| == |s| - 1
  {
    var i := IndexOf(s, k);
    var t := Delete(s, k);
    var rest := Keys(s)[..i] + Keys(s)[i + 1..];
    assert |Keys(t)| == |rest|;
    forall j | 0 <= j < |t|
      ensures Keys(t)[j] == rest[j]
    {
      if j < i {
        assert t[j] == s[j];
      } else {
        assert t[j] == s[j + 1];
      }
    }
  }

  /** Under unique keys, the removed key is gone, the others remain, and keys stay unique. */
  lemma DeleteRemoves(s: seq<Entry>, k: Handler)
    requires UniqueKeys(s) && k in Keys(s)
    ensures k !in Keys(Delete(s, k))
    ensures forall h | h != k :: h in Keys(Delete(s, k)) <==> h in Keys(s)
    ensures UniqueKeys(Delete(s, k))
  {
    var i := IndexOf(s, k);
    var t := Delete(s, k);
    assert forall j | 0 <= j < |t| :: t[j] == if j < i then s[j] else s[j + 1];
    forall h | h != k && h in Keys(s)
      ensures h in Keys(t)
    {
      var j := IndexOf(s, h);
      assert j != i;
      if j < i { assert Keys(t)[j] == h; } else { assert Keys(t)[j - 1] == h; }
    }
    forall h | h in Keys(t)
      ensures h in Keys(s)
    {
      var j :| 0 <= j < |t| && Keys(t)[j] == h;
      if j < i { assert Keys(s)[j] == h; } else { assert Keys(s)[j + 1] == h; }
    }
  }

  /** Every other key keeps its value after a removal. */
  lemma DeleteLookup(s: seq<Entry>, k: Handler, other: Handler)
    requires k in Keys(s) && other != k
    ensures Lookup(Delete(s, k), other) == Lookup(s, other)
  {
    var i := IndexOf(s, k);
    var j := IndexOf(s, other);
    var t := Delete(s, k);
    assert j != i;
    if j < i {
      IndexOfIsFirst(t, other, j);
    } else if j < |s| {
      IndexOfIsFirst(t, other, j - 1);
    } else {
      IndexOfIsFirst(t, other, |t|);
    }
  }

  /** `pop` undoes the registration of a key that was not there before. */
  lemma DeleteUndoesPut(s: seq<Entry>, k: Handler, v: Invocable)
    requires k !in Keys(s)
    ensures k in Keys(Put(s, k, v))
    ensures Delete(Put(s, k, v), k) == s
  {
    var t := Put(s, k, v);
    PutKeys(s, k, v);
    assert Keys(t)[|s|] == k;
    IndexOfIsFirst(t, k, |s|);
  }
}
