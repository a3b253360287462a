/**
 * Instants of the importer, as integer epoch milliseconds.
 *
 * The source works with timezone-aware datetimes; every comparison it makes
 * is on the underlying instant, so the timezone only affects how a time is
 * rendered, which this model leaves abstract.
 */
module Timestamps {

  /** Epoch milliseconds; negative values are instants before 1970. */
  type Millis = int

  /** The "no prior record" reference, 2008-01-09T00:00:50Z, in seconds since the epoch. */
  const SentinelSeconds: int := 1199836850

  /** The same sentinel in milliseconds. */
  const SentinelMs: Millis := SentinelSeconds * 1000

  /**
   * Whole seconds elapsed from `fromMs` to `toMs`: a timedelta's `seconds`
   * plus `days * 86400`, which is the floor of the exact difference, also
   * when the difference is negative.
   */
  function ElapsedSeconds(fromMs: Millis, toMs: Millis): (s: int)
    ensures s * 1000 <= toMs - fromMs < s * 1000 + 1000
  {
    (toMs - fromMs) / 1000
  }

  /**
   * `int(ms / 1000)`: the instant in whole epoch seconds, truncated toward
   * zero as Python's `int` does on a float.
   */
  function TruncSeconds(ms: Millis): (s: int)
    ensures 0 <= ms ==> 0 <= s * 1000 <= ms < s * 1000 + 1000
    ensures ms < 0 ==> s * 1000 - 1000 < ms <= s * 1000 <= 0
  {
    if 0 <= ms then ms / 1000 else -((-ms) / 1000)
  }
}
