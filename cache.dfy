/**
 * The `Cache` type of package ttl (cache.go): a map from keys to entries
 * that every operation updates in place, and an optional eviction hook.
 *
 * The clock reading each operation takes from `time.Now()` is its `now`
 * parameter. Whether the `Evict` hook is set is the field `hookSet`; the
 * hook calls themselves are recorded, in order, in the ghost log `evicted`.
 * Each method is proved to have exactly the effect of the matching step
 * function of module CacheSpec.
 */
module Ttl {
  import opened Clock
  import opened CacheSpec

  class Cache<K(==), V> {
    /** The entries, by key (the Go map `c`). */
    var c: map<K, Entry<V>>
    /** Whether the `Evict` hook is set. */
    var hookSet: bool
    /** Every `(key, value)` the hook has been called with, oldest first. */
    ghost var evicted: seq<(K, V)>

    /** `New`: an empty cache without a hook. */
    constructor ()
      ensures c == map[] && !hookSet && evicted == []
    {
      c := map[];
      hookSet := false;
      evicted := [];
    }

    method Get(key: K, now: int) returns (r: Result<V>)
      modifies this`c, this`evicted
      ensures var s := GetStep(old(c), hookSet, key, now);
        c == s.entries && evicted == old(evicted) + s.fired && r == s.out
    {
      if key in c {
        var ent := c[key];
        if ent.dl == NO_DEADLINE || ent.dl > UnixSec(now) {
          return Success(ent.val);
        }
        c := c - {key};
        if hookSet {
          evicted := evicted + [(key, ent.val)];
        }
        return Failure(ErrExpire);
      }
      return Failure(ErrNotFound);
    }

    method Add(key: K, value: V, d: int, now: int) returns (r: Outcome)
      modifies this`c
      ensures var s := AddStep(old(c), key, value, d, now);
        c == s.entries && r == s.out
    {
      if d < 0 {
        return Fail(ErrNegativeDuration);
      }
      if key in c {
        return Fail(ErrDup);
      }
      c := c[key := Entry(Deadline(now, d), value)];
      return Pass;
    }

    method Set(key: K, value: V, d: int, now: int) returns (r: Outcome)
      modifies this`c
      ensures var s := SetStep(old(c), key, value, d, now);
        c == s.entries && r == s.out
    {
      if key in c {
        var ent := c[key];
        ent := ent.(val := value);
        if d >= 0 {
          ent := ent.(dl := Deadline(now, d));
        }
        c := c[key := ent];
        return Pass;
      }
      c := c[key := Entry(Deadline(now, d), value)];
      return Pass;
    }

    method Expire(key: K, d: int, now: int) returns (r: Outcome)
      modifies this`c
      ensures var s := ExpireStep(old(c), key, d, now);
        c == s.entries && r == s.out
    {
      if key in c {
        var ent := c[key];
        c := c[key := ent.(dl := Deadline(now, d))];
        return Pass;
      }
      return Fail(ErrNotFound);
    }

    method Remove(key: K) returns (r: Outcome)
      modifies this`c, this`evicted
      ensures var s := RemoveStep(old(c), hookSet, key);
        c == s.entries && evicted == old(evicted) + s.fired && r == s.out
    {
      if key in c {
        var ent := c[key];
        c := c - {key};
        if hookSet {
          evicted := evicted + [(key, ent.val)];
        }
        return Pass;
      }
      return Fail(ErrNotFound);
    }

    method GetAndRemove(key: K, now: int) returns (r: Result<V>)
      modifies this`c, this`evicted
      ensures var s := GetAndRemoveStep(old(c), hookSet, key, now);
        c == s.entries && evicted == old(evicted) + s.fired && r == s.out
    {
      r := Get(key, now);
      if r.Failure? {
        return;
      }
      c := c - {key};
      if hookSet {
        evicted := evicted + [(key, r.value)];
      }
    }
  }

  // ---------------------------------------------------------------------
  // Clients: the call sequences of the package's tests, with every sleep
  // turned into a later clock reading.
  // ---------------------------------------------------------------------

  /**
   * TestNew. Up to the last `Add` the test's expectations hold; that `Add`
   * passes the duration -1ns, which `Add` refuses with
   * `ErrNegativeDuration`, so the final `Get` finds nothing.
   */
  method NewScenario(t0: int, t1: int)
    returns (g1: Result<int>, a1: Outcome, g2: Result<int>, g3: Result<int>, a2: Outcome, rm: Outcome,
             g4: Result<int>, add: Outcome, g5: Result<int>)
    requires 0 <= t0 && t0 + NANOS_PER_SECOND <= t1
    ensures g1 == Failure(ErrNotFound) && a1 == Pass && g2 == Success(1) && g3 == Failure(ErrExpire)
    ensures a2 == Pass && rm == Pass && g4 == Failure(ErrNotFound)
    ensures add == Fail(ErrNegativeDuration) && g5 == Failure(ErrNotFound)
  {
    var cache := new Cache<string, int>();
    g1 := cache.Get("a", t0);
    a1 := cache.Add("a", 1, NANOS_PER_SECOND, t0);
    g2 := cache.Get("a", t0);
    // the expired read reaps "a", which is why the second Add succeeds
    g3 := cache.Get("a", t1);
    a2 := cache.Add("a", 1, NANOS_PER_SECOND, t1);
    rm := cache.Remove("a");
    g4 := cache.Get("a", t1);
    add := cache.Add("a", 1, -1, t1);
    g5 := cache.Get("a", t1);
  }

  /**
   * TestSet: `Set` with -1ns keeps the deadline and replaces the value; `Set`
   * with 0 makes the next `Get` report `ErrExpire`.
   */
  method SetScenario(t0: int)
    returns (a: Outcome, g1: Result<int>, s1: Outcome, g2: Result<int>, s2: Outcome, g3: Result<int>)
    requires 0 <= t0
    ensures a == Pass && s1 == Pass && s2 == Pass
    ensures g1 == Success(1) && g2 == Success(2) && g3 == Failure(ErrExpire)
  {
    var cache := new Cache<string, int>();
    a := cache.Add("a", 1, NANOS_PER_SECOND, t0);
    g1 := cache.Get("a", t0);
    s1 := cache.Set("a", 2, -1, t0);
    g2 := cache.Get("a", t0);
    s2 := cache.Set("a", 3, 0, t0);
    g3 := cache.Get("a", t0);
  }

  /**
   * TestExpire: `Expire` pushes the deadline to two seconds after `t0`. The
   * first read succeeds only if the first one-second sleep ends within the
   * next second (`UnixSec(t1) == UnixSec(t0) + 1`); the second read comes
   * after the new deadline.
   */
  method ExpireScenario(t0: int, t1: int, t2: int)
    returns (a: Outcome, e: Outcome, g1: Result<int>, g2: Result<int>)
    requires 0 <= t0 && t0 + NANOS_PER_SECOND <= t1 && UnixSec(t1) == UnixSec(t0) + 1
    requires t0 + 2 * NANOS_PER_SECOND <= t2
    ensures a == Pass && e == Pass && g1 == Success(1) && g2 == Failure(ErrExpire)
  {
    var cache := new Cache<string, int>();
    a := cache.Add("a", 1, NANOS_PER_SECOND, t0);
    e := cache.Expire("a", 2 * NANOS_PER_SECOND, t0);
    g1 := cache.Get("a", t1);
    g2 := cache.Get("a", t2);
  }

  /** TestGetAndRemove: the value is returned once and the key is gone afterwards. */
  method GetAndRemoveScenario(t0: int) returns (a: Outcome, g1: Result<int>, g2: Result<int>)
    ensures a == Pass && g1 == Success(1) && g2 == Failure(ErrNotFound)
  {
    var cache := new Cache<string, int>();
    a := cache.Add("a", 1, NANOS_PER_SECOND, t0);
    g1 := cache.GetAndRemove("a", t0);
    g2 := cache.Get("a", t0);
  }

  /**
   * Example: with a hook set, `Remove` of an entry added with a zero
   * duration (already expired) calls the hook exactly once, with ("a", 1).
   */
  method EvictExample(t0: int) returns (cache: Cache<string, int>)
    ensures cache.evicted == [("a", 1)] && cache.c == map[]
  {
    cache := new Cache<string, int>();
    cache.hookSet := true;
    var a := cache.Add("a", 1, 0, t0);
    var rm := cache.Remove("a");
  }
}
