/**
 * The expiring map as values: what each operation of `Cache` (cache.go)
 * does to the key/entry map, which eviction-hook calls it makes and what it
 * returns, given the clock reading `now` (nanoseconds since the epoch) at
 * which it runs. The class in module Ttl is proved to behave as these step
 * functions say; the lemmas below state what the step functions mean.
 */
module CacheSpec {
  import opened Clock

  /** The four error values of the package. */
  datatype Error = ErrDup | ErrExpire | ErrNotFound | ErrNegativeDuration

  /** A `(value, error)` return: the value is only meaningful without an error. */
  datatype Result<V> = Success(value: V) | Failure(error: Error)

  /** A bare `error` return: `nil` is `Pass`. */
  datatype Outcome = Pass | Fail(error: Error)

  /** An `entry`: its deadline in Unix seconds and the value it holds. */
  datatype Entry<V> = Entry(dl: int, val: V)

  /** The deadline `Get` treats as "never expires". */
  const NO_DEADLINE: int := -1

  /**
   * The effect of one call: the map afterwards, the eviction-hook calls it
   * made, in order, and what it returned.
   */
  datatype Step<K, V, R> = Step(entries: map<K, Entry<V>>, fired: seq<(K, V)>, out: R)

  /** The freshness test of `Get`: a deadline equal to the current second is expired. */
  predicate Live<V>(e: Entry<V>, now: int)
    ensures Live(e, now) <==> e.dl == NO_DEADLINE || now < e.dl * NANOS_PER_SECOND
  {
    e.dl == NO_DEADLINE || e.dl > UnixSec(now)
  }

  /** The hook calls made when `(k, v)` leaves the map: one if a hook is set, none otherwise. */
  function Fire<K, V>(hookSet: bool, k: K, v: V): (r: seq<(K, V)>)
    ensures |r| == (if hookSet then 1 else 0)
    ensures hookSet ==> r[0] == (k, v)
  {
    if hookSet then [(k, v)] else []
  }

  /** `Get`: read a key, reaping it if it has expired. */
  function GetStep<K, V>(m: map<K, Entry<V>>, hookSet: bool, key: K, now: int): (s: Step<K, V, Result<V>>)
    ensures s.out.Success? <==> key in m && Live(m[key], now)
    ensures s.out.Success? ==> s.out.value == m[key].val
    ensures s.out == Failure(ErrNotFound) <==> key !in m
    ensures s.out == Failure(ErrExpire) <==> key in m && !Live(m[key], now)
    ensures s.out != Failure(ErrExpire) ==> s.entries == m && s.fired == []
    ensures s.out == Failure(ErrExpire) ==> s.entries == m - {key} && s.fired == Fire(hookSet, key, m[key].val)
  {
    if key in m then
      if Live(m[key], now) then Step(m, [], Success(m[key].val))
      else Step(m - {key}, Fire(hookSet, key, m[key].val), Failure(ErrExpire))
    else Step(m, [], Failure(ErrNotFound))
  }

  /** `Add`: insert only if the key is absent; a negative duration is refused first. */
  function AddStep<K, V>(m: map<K, Entry<V>>, key: K, value: V, d: int, now: int): (s: Step<K, V, Outcome>)
    ensures s.fired == []
    ensures s.out == Pass <==> d >= 0 && key !in m
    ensures d < 0 ==> s.out == Fail(ErrNegativeDuration)
    ensures d >= 0 && key in m ==> s.out == Fail(ErrDup)
    ensures s.out.Fail? ==> s.entries == m
    ensures s.out == Pass ==> s.entries == m[key := Entry(Deadline(now, d), value)]
  {
    if d < 0 then Step(m, [], Fail(ErrNegativeDuration))
    else if key in m then Step(m, [], Fail(ErrDup))
    else Step(m[key := Entry(Deadline(now, d), value)], [], Pass)
  }

  /**
   * `Set`: upsert. An existing entry always takes the new value and takes a
   * new deadline only for a non-negative duration; a missing key is inserted
   * with deadline `now + d` whatever the sign of `d`.
   */
  function SetStep<K, V>(m: map<K, Entry<V>>, key: K, value: V, d: int, now: int): (s: Step<K, V, Outcome>)
    ensures s.out == Pass && s.fired == []
    ensures s.entries.Keys == m.Keys + {key}
    ensures s.entries[key].val == value
    ensures s.entries[key].dl == if key in m && d < 0 then m[key].dl else Deadline(now, d)
    ensures forall k :: k in m && k != key ==> s.entries[k] == m[k]
  {
    if key in m then
      var ent := m[key].(val := value);
      var ent := if d >= 0 then ent.(dl := Deadline(now, d)) else ent;
      Step(m[key := ent], [], Pass)
    else
      Step(m[key := Entry(Deadline(now, d), value)], [], Pass)
  }

  /** `Expire`: re-arm the deadline of an existing key, with no freshness check. */
  function ExpireStep<K, V>(m: map<K, Entry<V>>, key: K, d: int, now: int): (s: Step<K, V, Outcome>)
    ensures s.fired == []
    ensures s.out == Pass <==> key in m
    ensures s.out.Fail? ==> s.out.error == ErrNotFound && s.entries == m
    ensures s.entries.Keys == m.Keys
    ensures key in m ==> s.entries[key] == Entry(Deadline(now, d), m[key].val)
    ensures forall k :: k in m && k != key ==> s.entries[k] == m[k]
  {
    if key in m then Step(m[key := m[key].(dl := Deadline(now, d))], [], Pass)
    else Step(m, [], Fail(ErrNotFound))
  }

  /** `Remove`: delete a key, live or expired, notifying the hook. */
  function RemoveStep<K, V>(m: map<K, Entry<V>>, hookSet: bool, key: K): (s: Step<K, V, Outcome>)
    ensures s.entries == m - {key}
    ensures s.out == Pass <==> key in m
    ensures s.out.Fail? ==> s.out.error == ErrNotFound
    ensures s.fired == if key in m then Fire(hookSet, key, m[key].val) else []
  {
    if key in m then Step(m - {key}, Fire(hookSet, key, m[key].val), Pass)
    else Step(m, [], Fail(ErrNotFound))
  }

  /** `GetAndRemove`: a `Get`, followed by a removal only when the `Get` succeeded. */
  function GetAndRemoveStep<K, V>(m: map<K, Entry<V>>, hookSet: bool, key: K, now: int): (s: Step<K, V, Result<V>>)
    ensures s.out == GetStep(m, hookSet, key, now).out
    ensures s.entries == m - {key}
    ensures s.fired == if key in m then Fire(hookSet, key, m[key].val) else []
  {
    var g := GetStep(m, hookSet, key, now);
    if g.out.Failure? then g
    else Step(g.entries - {key}, g.fired + Fire(hookSet, key, g.out.value), g.out)
  }

  // ---------------------------------------------------------------------
  // Properties relating the operations
  // ---------------------------------------------------------------------

  /** Reaping is final: after a `Get` reports `ErrExpire`, any later `Get` reports `ErrNotFound`. */
  lemma ExpiredThenNotFound<K, V>(m: map<K, Entry<V>>, hookSet: bool, key: K, now: int, later: int)
    requires GetStep(m, hookSet, key, now).out == Failure(ErrExpire)
    ensures GetStep(GetStep(m, hookSet, key, now).entries, hookSet, key, later)
      == Step(m - {key}, [], Failure(ErrNotFound))
  {
  }

  /**
   * A successful `Add` with duration `d` can be read back, unchanged and
   * without side effects, at every instant that lies at least one second
   * before `now + d`.
   */
  lemma AddThenGet<K, V>(m: map<K, Entry<V>>, hookSet: bool, key: K, value: V, d: int, now: int, t: int)
    requires AddStep(m, key, value, d, now).out == Pass
    requires t + NANOS_PER_SECOND <= now + d
    ensures var m' := AddStep(m, key, value, d, now).entries;
      GetStep(m', hookSet, key, t) == Step(m', [], Success(value))
  {
  }

  /**
   * Once the instant `now + d` has passed, the entry a successful `Add`
   * created is reaped by the next `Get`, which notifies the hook. The clock
   * must not lie in the second before the epoch, whose number is the
   * "never expires" sentinel (see `SentinelDeadline`).
   */
  lemma AddThenGetAfterDeadline<K, V>(m: map<K, Entry<V>>, hookSet: bool, key: K, value: V, d: int, now: int, t: int)
    requires AddStep(m, key, value, d, now).out == Pass
    requires now >= 0 && now + d <= t
    ensures GetStep(AddStep(m, key, value, d, now).entries, hookSet, key, t)
      == Step(m, Fire(hookSet, key, value), Failure(ErrExpire))
  {
  }

  /** For a missing key and a non-negative duration, `Set` does exactly what `Add` does. */
  lemma SetAgreesWithAddWhenAbsent<K, V>(m: map<K, Entry<V>>, key: K, value: V, d: int, now: int)
    requires key !in m && d >= 0
    ensures SetStep(m, key, value, d, now) == AddStep(m, key, value, d, now)
  {
  }

  /**
   * For a missing key and a negative duration the two differ: `Add` refuses,
   * while `Set` inserts an entry that the next `Get` at the same instant
   * reaps, unless the computed deadline is the sentinel `-1` (see
   * `SentinelDeadline`).
   */
  lemma SetNegativeOnAbsentKeyIsAlreadyExpired<K, V>(m: map<K, Entry<V>>, hookSet: bool, key: K, value: V, d: int, now: int)
    requires key !in m && d < 0 && Deadline(now, d) != NO_DEADLINE
    ensures AddStep(m, key, value, d, now) == Step(m, [], Fail(ErrNegativeDuration))
    ensures GetStep(SetStep(m, key, value, d, now).entries, hookSet, key, now)
      == Step(m, Fire(hookSet, key, value), Failure(ErrExpire))
  {
  }

  /**
   * `Set` with a negative duration on an existing key keeps the expiration
   * schedule: at every instant the entry is live exactly when the old one
   * was, and a successful read returns the new value.
   */
  lemma SetNegativeKeepsSchedule<K, V>(m: map<K, Entry<V>>, hookSet: bool, key: K, value: V, d: int, now: int, t: int)
    requires key in m && d < 0
    ensures Live(SetStep(m, key, value, d, now).entries[key], t) <==> Live(m[key], t)
    ensures Live(m[key], t) ==>
      GetStep(SetStep(m, key, value, d, now).entries, hookSet, key, t).out == Success(value)
  {
  }

  /**
   * `Set` with a zero duration makes the very next `Get` at the same instant
   * report `ErrExpire` and hand the new value to the hook, unless the
   * current second is the sentinel `-1`.
   */
  lemma SetZeroExpiresAtOnce<K, V>(m: map<K, Entry<V>>, hookSet: bool, key: K, value: V, now: int)
    requires Deadline(now, 0) != NO_DEADLINE
    ensures GetStep(SetStep(m, key, value, 0, now).entries, hookSet, key, now)
      == Step(m - {key}, Fire(hookSet, key, value), Failure(ErrExpire))
  {
  }

  /**
   * `Expire` revives an entry whether or not it had expired: with a duration
   * of at least a second the next `Get` at the same instant returns the
   * value the entry already held.
   */
  lemma ExpireRevives<K, V>(m: map<K, Entry<V>>, hookSet: bool, key: K, d: int, now: int)
    requires key in m && d >= NANOS_PER_SECOND
    ensures var m' := ExpireStep(m, key, d, now).entries;
      GetStep(m', hookSet, key, now) == Step(m', [], Success(m[key].val))
  {
  }

  /** After `Remove` any `Get` of that key reports `ErrNotFound` and changes nothing. */
  lemma RemoveThenGet<K, V>(m: map<K, Entry<V>>, hookSet: bool, key: K, now: int)
    ensures var m' := RemoveStep(m, hookSet, key).entries;
      GetStep(m', hookSet, key, now) == Step(m', [], Failure(ErrNotFound))
  {
  }

  /**
   * `GetAndRemove` has the effect of `Remove` on the map and on the hook,
   * whatever the freshness of the entry; it differs only in what it returns.
   */
  lemma GetAndRemoveActsAsRemove<K, V>(m: map<K, Entry<V>>, hookSet: bool, key: K, now: int)
    ensures GetAndRemoveStep(m, hookSet, key, now).entries == RemoveStep(m, hookSet, key).entries
    ensures GetAndRemoveStep(m, hookSet, key, now).fired == RemoveStep(m, hookSet, key).fired
    ensures GetAndRemoveStep(m, hookSet, key, now).out.Failure? <==>
      RemoveStep(m, hookSet, key).out.Fail? || !Live(m[key], now)
  {
  }

  /**
   * A second `GetAndRemove` of the same key, at any instant, reports
   * `ErrNotFound` and leaves no trace; so does every call on a missing key.
   */
  lemma GetAndRemoveTwice<K, V>(m: map<K, Entry<V>>, hookSet: bool, key: K, now: int, later: int)
    ensures var m' := GetAndRemoveStep(m, hookSet, key, now).entries;
      GetAndRemoveStep(m', hookSet, key, later) == Step(m', [], Failure(ErrNotFound))
  {
  }

  /**
   * The "never expires" sentinel is not unreachable: a deadline computed for
   * an instant in the second before the epoch is -1, and `Get` then treats
   * the entry as live at every instant. `Set` stores such a deadline for a
   * missing key or a non-negative duration, and `Expire` for any present key.
   */
  lemma SentinelDeadline<K, V>(m: map<K, Entry<V>>, key: K, value: V, d: int, now: int, t: int)
    ensures Deadline(now, d) == NO_DEADLINE <==> -NANOS_PER_SECOND <= now + d < 0
    ensures (key !in m || d >= 0) && -NANOS_PER_SECOND <= now + d < 0 ==>
      Live(SetStep(m, key, value, d, now).entries[key], t)
    ensures key in m && -NANOS_PER_SECOND <= now + d < 0 ==>
      Live(ExpireStep(m, key, d, now).entries[key], t)
  {
  }
}
