/**
 * Wall-clock arithmetic of the cache. The clock is read as an integer number
 * of nanoseconds since the Unix epoch (Go's `time.Now()`), a duration is an
 * integer number of nanoseconds (Go's `time.Duration`), and deadlines are
 * kept as whole Unix seconds (Go's `Time.Unix()`, which rounds towards
 * negative infinity).
 */
module Clock {

  const NANOS_PER_SECOND: int := 1_000_000_000

  /** The Unix second that contains the instant `ns`. */
  function UnixSec(ns: int): (s: int)
    ensures s * NANOS_PER_SECOND <= ns < s * NANOS_PER_SECOND + NANOS_PER_SECOND
  {
    ns / NANOS_PER_SECOND
  }

  /** The deadline stored for a duration `d` started at `now`: `now.Add(d).Unix()`. */
  function Deadline(now: int, d: int): (dl: int)
    ensures dl * NANOS_PER_SECOND <= now + d < dl * NANOS_PER_SECOND + NANOS_PER_SECOND
  {
    UnixSec(now + d)
  }

  /** Later instants never fall in an earlier second. */
  lemma UnixSecMonotone(a: int, b: int)
    requires a <= b
    ensures UnixSec(a) <= UnixSec(b)
  {
  }

  /**
   * Comparing a deadline second with the current second (`dl > now.Unix()`)
   * is the same as comparing the current instant with the first instant of
   * the deadline second.
   */
  lemma BeforeDeadlineSecond(dl: int, t: int)
    ensures dl > UnixSec(t) <==> t < dl * NANOS_PER_SECOND
  {
  }

  /**
   * A deadline set at `now` for `d` is still in the future at every instant
   * that lies at least a whole second before `now + d`.
   */
  lemma DeadlineAhead(now: int, d: int, t: int)
    requires t + NANOS_PER_SECOND <= now + d
    ensures Deadline(now, d) > UnixSec(t)
  {
  }

  /** Once the instant `now + d` has been reached the deadline is in the past. */
  lemma DeadlinePassed(now: int, d: int, t: int)
    requires now + d <= t
    ensures Deadline(now, d) <= UnixSec(t)
  {
  }

  /**
   * Truncation to seconds can shorten a duration by up to a second: a one
   * second duration started one nanosecond before a second boundary has
   * passed its deadline one nanosecond later.
   */
  lemma OneSecondCanLastOneNanosecond()
    ensures Deadline(NANOS_PER_SECOND - 1, NANOS_PER_SECOND) <= UnixSec(NANOS_PER_SECOND)
  {
  }
}
