/** Durations are whole nanoseconds, of either sign. */
module Durations {
  const NANOSECONDS_PER_SECOND := 1_000_000_000
  const NANOSECONDS_PER_MILLISECOND := 1_000_000

  /** A duration in whole milliseconds, truncated toward zero as a duration_cast does. */
  function Milliseconds(duration: int): int {
    if duration >= 0 then duration / NANOSECONDS_PER_MILLISECOND
    else -(-duration / NANOSECONDS_PER_MILLISECOND)
  }
}
