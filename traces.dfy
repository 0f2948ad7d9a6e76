/**
 * Sequences of calls on one cache. `Run` replays calls, each made at its own
 * clock reading, through the step functions of CacheSpec. The lemmas state
 * the entry lifecycle over whole sequences: entries are created only by
 * `Add` and `Set`, the hook is silent when unset, and, in call sequences
 * without `Add` or `Set`, every entry that leaves the map is reported to a
 * set hook exactly once, with its stored value.
 */
module Traces {
  import opened CacheSpec

  /** One call of a `Cache` method, with its arguments. */
  datatype Op<K, V> =
    | Get(key: K)
    | Add(key: K, value: V, d: int)
    | Set(key: K, value: V, d: int)
    | Expire(key: K, d: int)
    | Remove(key: K)
    | GetAndRemove(key: K)
  {
    /** The operations that can create an entry. */
    predicate Writes()
    {
      Add? || Set?
    }
  }

  /** A call and the clock reading it is made at. */
  datatype Call<K, V> = Call(op: Op<K, V>, now: int)

  /** What a call returns: a `(value, error)` pair or a bare error. */
  datatype Reply<V> = Value(result: Result<V>) | Status(outcome: Outcome)

  /** The effect of one call. */
  function Apply<K, V>(m: map<K, Entry<V>>, hookSet: bool, call: Call<K, V>): Step<K, V, Reply<V>>
  {
    match call.op
    case Get(k) =>
      var s := GetStep(m, hookSet, k, call.now); Step(s.entries, s.fired, Value(s.out))
    case Add(k, v, d) =>
      var s := AddStep(m, k, v, d, call.now); Step(s.entries, s.fired, Status(s.out))
    case Set(k, v, d) =>
      var s := SetStep(m, k, v, d, call.now); Step(s.entries, s.fired, Status(s.out))
    case Expire(k, d) =>
      var s := ExpireStep(m, k, d, call.now); Step(s.entries, s.fired, Status(s.out))
    case Remove(k) =>
      var s := RemoveStep(m, hookSet, k); Step(s.entries, s.fired, Status(s.out))
    case GetAndRemove(k) =>
      var s := GetAndRemoveStep(m, hookSet, k, call.now); Step(s.entries, s.fired, Value(s.out))
  }

  /** The calls in order: the final map, all hook calls, and one reply per call. */
  function Run<K, V>(m: map<K, Entry<V>>, hookSet: bool, calls: seq<Call<K, V>>): (r: Step<K, V, seq<Reply<V>>>)
    ensures |r.out| == |calls|
    ensures forall i :: 0 <= i < |calls| && calls[i].op.Writes() ==> r.out[i].Status?
    decreases |calls|
  {
    if calls == [] then Step(m, [], [])
    else
      var s := Apply(m, hookSet, calls[0]);
      var r := Run(s.entries, hookSet, calls[1..]);
      Step(r.entries, s.fired + r.fired, [s.out] + r.out)
  }

  /** The keys that the calls' `Add` and `Set` operations name. */
  function WrittenKeys<K, V>(calls: seq<Call<K, V>>): set<K>
    decreases |calls|
  {
    if calls == [] then {}
    else (if calls[0].op.Writes() then {calls[0].op.key} else {}) + WrittenKeys(calls[1..])
  }

  /** Calls none of which is an `Add` or a `Set`. */
  predicate NoWrites<K, V>(calls: seq<Call<K, V>>)
  {
    forall i :: 0 <= i < |calls| ==> !calls[i].op.Writes()
  }

  /** Every entry of `after` was in `before`, with the same value. */
  ghost predicate KeepsValues<K, V>(before: map<K, Entry<V>>, after: map<K, Entry<V>>)
  {
    forall k :: k in after ==> k in before && after[k].val == before[k].val
  }

  /**
   * Every hook call in `fired` names a key of `before` with the value it held
   * there, and that key is not in `after`.
   */
  ghost predicate ReportsRemoved<K, V>(before: map<K, Entry<V>>, fired: seq<(K, V)>, after: map<K, Entry<V>>)
  {
    forall i :: 0 <= i < |fired| ==>
      fired[i].0 in before && fired[i].1 == before[fired[i].0].val && fired[i].0 !in after
  }

  /** Hook calls made from `m` to `mid` and then from `mid` to `after` report removals from `m` to `after`. */
  lemma ReportsRemovedAppend<K, V>(m: map<K, Entry<V>>, a: seq<(K, V)>, mid: map<K, Entry<V>>, b: seq<(K, V)>, after: map<K, Entry<V>>)
    requires ReportsRemoved(m, a, mid) && KeepsValues(m, mid)
    requires ReportsRemoved(mid, b, after) && KeepsValues(mid, after)
    ensures ReportsRemoved(m, a + b, after)
  {
    forall i | 0 <= i < |a + b|
      ensures (a + b)[i].0 in m && (a + b)[i].1 == m[(a + b)[i].0].val && (a + b)[i].0 !in after
    {
      if i < |a| {
        assert (a + b)[i] == a[i];
      } else {
        assert (a + b)[i] == b[i - |a|];
      }
    }
  }

  /**
   * A call other than `Add` or `Set` only removes entries or re-arms
   * deadlines, and with a hook set it reports each removed entry once, with
   * its stored value.
   */
  lemma ApplyWithoutWrite<K, V>(m: map<K, Entry<V>>, hookSet: bool, call: Call<K, V>)
    requires !call.op.Writes()
    ensures var s := Apply(m, hookSet, call);
      && KeepsValues(m, s.entries)
      && ReportsRemoved(m, s.fired, s.entries)
      && |s.fired| <= 1
      && (hookSet ==> |s.entries| + |s.fired| == |m|)
  {
    match call.op
    case Get(k) =>
    case Expire(k, d) =>
    case Remove(k) =>
    case GetAndRemove(k) =>
  }

  /** Only `Add` and `Set` create entries: every key in the final map was there at first or was written. */
  lemma {:induction false} KeysComeFromWrites<K, V>(m: map<K, Entry<V>>, hookSet: bool, calls: seq<Call<K, V>>)
    ensures Run(m, hookSet, calls).entries.Keys <= m.Keys + WrittenKeys(calls)
    decreases |calls|
  {
    if calls != [] {
      var s := Apply(m, hookSet, calls[0]);
      KeysComeFromWrites(s.entries, hookSet, calls[1..]);
      assert s.entries.Keys <= m.Keys + (if calls[0].op.Writes() then {calls[0].op.key} else {});
    }
  }

  /** Without a hook, no call sequence makes a hook call. */
  lemma {:induction false} SilentWithoutHook<K, V>(m: map<K, Entry<V>>, calls: seq<Call<K, V>>)
    ensures Run(m, false, calls).fired == []
    decreases |calls|
  {
    if calls != [] {
      var s := Apply(m, false, calls[0]);
      SilentWithoutHook(s.entries, calls[1..]);
    }
  }

  /** No key occurs twice among the hook calls `fired`. */
  ghost predicate DistinctKeys<K, V>(fired: seq<(K, V)>)
  {
    forall i, j :: 0 <= i < j < |fired| ==> fired[i].0 != fired[j].0
  }

  /**
   * Two hook logs without repeated keys, the first naming only keys outside
   * `keys` and the second only keys inside it, have no repeated key together.
   */
  lemma DistinctKeysAppend<K, V>(a: seq<(K, V)>, b: seq<(K, V)>, keys: set<K>)
    requires DistinctKeys(a) && DistinctKeys(b)
    requires forall i :: 0 <= i < |a| ==> a[i].0 !in keys
    requires forall i :: 0 <= i < |b| ==> b[i].0 in keys
    ensures DistinctKeys(a + b)
  {
    forall i, j | 0 <= i < j < |a + b|
      ensures (a + b)[i].0 != (a + b)[j].0
    {
      if j < |a| {
      } else if i < |a| {
        assert (a + b)[j] == b[j - |a|];
      } else {
        assert (a + b)[i] == b[i - |a|] && (a + b)[j] == b[j - |a|];
      }
    }
  }

  /** With no `Add` or `Set`, no key is reported to the hook twice. */
  lemma {:induction false} ReportedKeysDistinct<K, V>(m: map<K, Entry<V>>, hookSet: bool, calls: seq<Call<K, V>>)
    requires NoWrites(calls)
    ensures DistinctKeys(Run(m, hookSet, calls).fired)
    decreases |calls|
  {
    if calls != [] {
      var s := Apply(m, hookSet, calls[0]);
      ApplyWithoutWrite(m, hookSet, calls[0]);
      ReportedKeysDistinct(s.entries, hookSet, calls[1..]);
      HookSeesStoredValues(s.entries, hookSet, calls[1..]);
      DistinctKeysAppend(s.fired, Run(s.entries, hookSet, calls[1..]).fired, s.entries.Keys);
    }
  }

  /**
   * With a hook set and no `Add` or `Set`, every entry that leaves the map,
   * by `Remove`, by `GetAndRemove` or by a `Get` that finds it expired, is
   * reported exactly once: no key is reported twice, and entries left plus
   * hook calls made is the number of entries at the start.
   */
  lemma {:induction false} EveryDepartureReportedOnce<K, V>(m: map<K, Entry<V>>, calls: seq<Call<K, V>>)
    requires NoWrites(calls)
    ensures var r := Run(m, true, calls);
      && (forall i, j :: 0 <= i < j < |r.fired| ==> r.fired[i].0 != r.fired[j].0)
      && |r.entries| + |r.fired| == |m|
    decreases |calls|
  {
    ReportedKeysDistinct(m, true, calls);
    if calls != [] {
      var s := Apply(m, true, calls[0]);
      ApplyWithoutWrite(m, true, calls[0]);
      EveryDepartureReportedOnce(s.entries, calls[1..]);
    }
  }

  /**
   * With no `Add` or `Set`, each hook call names a key of the initial map
   * with the value it held and that key is absent at the end; the entries
   * left are initial entries with their values.
   */
  lemma {:induction false} HookSeesStoredValues<K, V>(m: map<K, Entry<V>>, hookSet: bool, calls: seq<Call<K, V>>)
    requires NoWrites(calls)
    ensures var r := Run(m, hookSet, calls);
      KeepsValues(m, r.entries) && ReportsRemoved(m, r.fired, r.entries)
    decreases |calls|
  {
    if calls != [] {
      var s := Apply(m, hookSet, calls[0]);
      ApplyWithoutWrite(m, hookSet, calls[0]);
      HookSeesStoredValues(s.entries, hookSet, calls[1..]);
      var rest := Run(s.entries, hookSet, calls[1..]);
      ReportsRemovedAppend(m, s.fired, s.entries, rest.fired, rest.entries);
    }
  }
}
