# ttl: an expiring key/value map, modelled in Dafny

Package `ttl` keeps an in-process map from keys to entries. Each entry holds a
value and a deadline in whole Unix seconds. There is no background sweep.
`Get` checks freshness lazily: an entry whose deadline second is not after
the current second is deleted on read and reported as `ErrExpire`, unless
the deadline is the sentinel `-1` ("never expires"; see below). An
optional `Evict` hook is called with `(key, value)` whenever `Get`,
`Remove` or `GetAndRemove` deletes an entry.

The project has four modules:

- `Clock` (clock.dfy): a clock reading is an integer number of nanoseconds.
  `UnixSec` is Go's `Time.Unix()`, which rounds towards negative infinity.
  `Deadline(now, d)` is `now.Add(d).Unix()`.
- `CacheSpec` (cache_spec.dfy): the entry, the four errors and one step
  function per operation. A step function gives the map afterwards, the
  hook calls made and the returned value. Its contract says what each
  outcome means. The lemmas relate the operations to one another.
- `Ttl` (cache.dfy): the class `Cache`. It has the map field `c`, the flag
  `hookSet` (whether `Evict` is non-nil) and a ghost log `evicted` of hook
  calls. Each method updates `c` in place, following the Go code branch by
  branch, and is proved to have exactly the effect of its step function.
  Client methods replay the package's tests, with each `time.Sleep` turned
  into a later clock reading.
- `Traces` (traces.dfy): replays a sequence of calls. Its lemmas state the
  entry lifecycle over whole sequences.

Behaviour of the code that the model keeps as written:

- Boundary. An entry is live iff `dl == -1 || dl > now.Unix()`, so a
  deadline equal to the current second is already expired, unless that
  second is the sentinel `-1` (see below) (`SetZeroExpiresAtOnce`).
- Deadlines are whole seconds. The deadline instant `now + d` is computed
  to the nanosecond and then rounded down to a whole second. An entry
  therefore stays live for at least `d - 1s` and at most `d`, unless the
  deadline is the sentinel `-1` (see below)
  (`DeadlineAhead`, `DeadlinePassed`, `AddThenGet`). A one-second entry can
  expire one nanosecond after it was added (`OneSecondCanLastOneNanosecond`).
- Negative durations. `Add` refuses them before it checks for a duplicate
  key. `Set` keeps the old deadline for an existing key. For a missing key,
  `Set` inserts with deadline `now + d`, which is already past, so the next
  `Get` reaps it, unless that second is the sentinel `-1` (see below)
  (`SetNegativeOnAbsentKeyIsAlreadyExpired`). The two
  operations therefore follow different policies for a negative duration.
- The `-1` "never expires" sentinel. No operation stores it on purpose. But
  a computed deadline equals `-1` whenever `now + d` falls in the second
  before the epoch. `Set` stores it for a missing key or a duration
  `d >= 0`, and `Expire` for any present key. Such an entry never expires
  (`SentinelDeadline`). With a present-day clock, a large enough negative
  duration reaches it.
- cache_test.go:29-32 expects `Add("a", 1, -1)` to succeed and the next
  `Get` to return 1. The code at cache.go:48-50 returns
  `ErrNegativeDuration` instead, and `"a"` had already been removed. The
  model follows the code: `NewScenario` ends with `ErrNegativeDuration`
  and then `ErrNotFound`.

## Model

| member | source | states |
|---|---|---|
| `Clock.UnixSec` | cache.go:34 | the result is the second containing the instant: `s*1e9 <= ns < s*1e9 + 1e9` (floor, as `Time.Unix`) |
| `Clock.Deadline` | cache.go:55 | the stored deadline is the second containing the instant `now + d`: `dl*1e9 <= now + d < dl*1e9 + 1e9` |
| `Clock.UnixSecMonotone` | cache.go:34 | a later instant never falls in an earlier second |
| `Clock.BeforeDeadlineSecond` | cache.go:34 | `dl > now.Unix()` holds exactly when the instant is before the first nanosecond of second `dl` |
| `Clock.DeadlineAhead` | cache.go:55 | a deadline set at `now` for `d` is still ahead at every instant at least one second before `now + d` |
| `Clock.DeadlinePassed` | cache.go:55 | once the instant `now + d` is reached, the deadline second is not after the current second |
| `Clock.OneSecondCanLastOneNanosecond` | cache.go:55 | a one-second duration started 1ns before a second boundary has passed its deadline 1ns later |
| `CacheSpec.Live` | cache.go:34 | an entry is live exactly when it has the sentinel deadline `-1` or the instant is before the first nanosecond of its deadline second |
| `CacheSpec.Fire` | cache.go:38-40 | a departing entry gives exactly one hook call, with its key and value, when the hook is set, and none otherwise |
| `CacheSpec.GetStep` | cache.go:32-44 | success iff the key is present and live, returning its stored value; `ErrNotFound` iff absent; `ErrExpire` iff present and expired, in which case only that key is deleted and the hook gets one call `(key, value)` when set; in every other case the map and hook are untouched |
| `CacheSpec.AddStep` | cache.go:47-59 | never calls the hook; succeeds iff `d >= 0` and the key is absent, inserting `{Deadline(now, d), value}` and nothing else; a negative `d` gives `ErrNegativeDuration` even for an existing key; otherwise `ErrDup`; a failure leaves the map unchanged |
| `CacheSpec.SetStep` | cache.go:65-78 | always returns nil and never calls the hook; the key set gains `key`; the entry takes the new value; its deadline is kept only when the key existed and `d < 0`, else it is `Deadline(now, d)`; every other entry is unchanged |
| `CacheSpec.ExpireStep` | cache.go:81-87 | succeeds iff the key is present; the entry then has deadline `Deadline(now, d)` and its old value, with no freshness check; an absent key gives `ErrNotFound` and no new entry; no other entry changes and no hook call is made |
| `CacheSpec.RemoveStep` | cache.go:90-98 | the map afterwards is the old map without the key; nil iff the key was present (live or expired), else `ErrNotFound`; exactly one hook call with the stored value when present and the hook is set, none otherwise |
| `CacheSpec.GetAndRemoveStep` | cache.go:103-112 | returns what `Get` returns; the key is absent afterwards whatever the outcome; exactly one hook call, with the stored value, when the key was present (live or expired) and the hook is set, none otherwise |
| `CacheSpec.ExpiredThenNotFound` | cache.go:37-43 | after a `Get` reports `ErrExpire`, a `Get` at any later time reports `ErrNotFound` and changes nothing |
| `CacheSpec.AddThenGet` | cache.go:51-58 | after a successful `Add`, a `Get` at any instant at least one second before `now + d` returns the added value with no side effect |
| `CacheSpec.AddThenGetAfterDeadline` | cache.go:34-41 | after a successful `Add`, a `Get` at or after `now + d` (clock after the epoch) reports `ErrExpire`, restores the original map and calls the hook once with the added value |
| `CacheSpec.SetAgreesWithAddWhenAbsent` | cache.go:73-76 | for an absent key and `d >= 0`, `Set` has exactly the effect and result of `Add` |
| `CacheSpec.SetNegativeOnAbsentKeyIsAlreadyExpired` | cache.go:73-76 | for an absent key and `d < 0`, `Add` refuses with `ErrNegativeDuration`, but `Set` inserts an entry that the next `Get` at the same instant reaps (whenever the computed deadline is not the sentinel `-1`, i.e. `now + d` is outside the second before the epoch) |
| `CacheSpec.SetNegativeKeepsSchedule` | cache.go:66-70 | `Set` with `d < 0` on an existing key leaves the entry live at exactly the same instants as before, and a live read returns the new value |
| `CacheSpec.SetZeroExpiresAtOnce` | cache.go:61-70 | after `Set` with `d == 0`, the next `Get` at the same instant reports `ErrExpire`, deletes the key and calls the hook with the new value (whenever the current second is not the sentinel `-1`, i.e. the clock is outside the second before the epoch) |
| `CacheSpec.ExpireRevives` | cache.go:81-85 | `Expire` with at least one second on any present entry, expired or not, makes the next `Get` at the same instant return the entry's old value |
| `CacheSpec.RemoveThenGet` | cache.go:90-98 | after `Remove`, `Get` reports `ErrNotFound` and changes nothing |
| `CacheSpec.GetAndRemoveActsAsRemove` | cache.go:103-111 | `GetAndRemove` leaves the same map and makes the same hook calls as `Remove`; it fails exactly when the key is absent or expired |
| `CacheSpec.GetAndRemoveTwice` | cache.go:103-106 | a second `GetAndRemove` of a key, at any time, reports `ErrNotFound` and changes nothing |
| `CacheSpec.SentinelDeadline` | cache.go:34 | the computed deadline is `-1` iff `now + d` lies in the second before the epoch, and an entry given such a deadline by `Set` (missing key or `d >= 0`) or by `Expire` (present key) is live at every instant |
| `Ttl.Cache.constructor` | cache.go:25-29 | `New` gives an empty map, no hook and an empty hook log |
| `Ttl.Cache.Get` | cache.go:32-44 | the new map, the hook calls appended to the log and the result are those of `GetStep` |
| `Ttl.Cache.Add` | cache.go:47-59 | the new map and the result are those of `AddStep`; the log is untouched |
| `Ttl.Cache.Set` | cache.go:65-78 | the new map and the result are those of `SetStep`; the log is untouched |
| `Ttl.Cache.Expire` | cache.go:81-87 | the new map and the result are those of `ExpireStep`; the log is untouched |
| `Ttl.Cache.Remove` | cache.go:90-98 | the new map, the hook calls appended to the log and the result are those of `RemoveStep` |
| `Ttl.Cache.GetAndRemove` | cache.go:103-112 | calls `Get`; the new map, the log and the result are those of `GetAndRemoveStep` |
| `Ttl.NewScenario` | cache_test.go:11-33 | the reads give not found, 1, expired and not found; both `Add`s and the `Remove` return nil, the second `Add` because the expired read reaped "a"; `Add("a", 1, -1)` gives `ErrNegativeDuration` and the last `Get` gives not found |
| `Ttl.SetScenario` | cache_test.go:35-49 | the `Add` and both `Set`s return nil; reads give 1, then 2 after `Set` with -1ns, then `ErrExpire` after `Set` with 0 |
| `Ttl.ExpireScenario` | cache_test.go:51-63 | `Add` and `Expire` return nil; a read one second later, within the next second, gives 1; a read two seconds later gives `ErrExpire` |
| `Ttl.GetAndRemoveScenario` | cache_test.go:65-74 | `Add` returns nil, `GetAndRemove` returns 1, then `Get` gives not found |
| `Ttl.EvictExample` | cache_test.go:76-86 | with a hook, `Remove` of an entry added with a zero duration calls the hook exactly once, with ("a", 1), and empties the map |
| `Traces.Run` | cache.go:32-112 | replaying a call sequence gives one reply per call, and `Add`/`Set` calls give bare error replies |
| `Traces.ApplyWithoutWrite` | cache.go:32-112 | a call other than `Add`/`Set` only removes entries or re-arms deadlines; it makes at most one hook call, and each hook call names a removed key with its stored value; with the hook set, entries left plus hook calls equals entries before |
| `Traces.KeysComeFromWrites` | cache.go:46-78 | over any call sequence, every key in the final map was in the initial map or was named by an `Add` or `Set` |
| `Traces.SilentWithoutHook` | cache.go:38-40 | without a hook, no call sequence makes a hook call |
| `Traces.ReportedKeysDistinct` | cache.go:92-94 | with no `Add`/`Set`, no key is reported to the hook twice |
| `Traces.EveryDepartureReportedOnce` | cache.go:37-39 | with the hook set and no `Add`/`Set`, no key is reported twice and entries left plus hook calls equals the initial number of entries: every departure is reported exactly once |
| `Traces.HookSeesStoredValues` | cache.go:92-94 | with no `Add`/`Set`, every hook call names an initial key with the value it held, and that key is gone at the end; the remaining entries keep their values |

## Left out

- The wall clock: `time.Now()` becomes the `now` parameter of each operation, in nanoseconds.
- Fixed-width integers: deadlines, durations and clock readings are unbounded integers. Overflow and saturation of `int64` in `Time.Add` and `Time.Unix` are not modelled.
- Entry pointers: the Go map holds `*entry` and `Set`/`Expire` update its fields through the pointer. The model replaces the entry value in the map instead. No pointer to an entry ever leaves the cache, so callers cannot observe the difference.
- The hook's own behaviour, including a hook that calls back into the cache. Only whether it is called, with which `(key, value)` and how many times is modelled (`hookSet` and the ghost log `evicted`).
- Go's `nil` value returned beside an error: a failed read is `Failure(error)` and carries no value.
- Keys are any type with equality. Hashing of `interface{}` keys, and the panic on unhashable keys, are not modelled.
- The zero-value `Cache`: `Cache` is an exported struct, so `Cache{}` exists and has a nil map. On it, `Add` with `d >= 0` and every `Set` panic ("assignment to entry in nil map"), while `Get`, `Expire`, `Remove` and `GetAndRemove` act as on an empty map. The model creates caches only through `New`, and the panic path is not modelled.
- ttl.go: a package-level default `Cache` whose functions only forward to the methods above. It has no logic of its own.
- Test timing: the scenarios take all calls between two sleeps as one instant and each sleep as an exact later reading. Real elapsed time between calls is not modelled.
