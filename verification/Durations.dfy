/** Durations in nanoseconds, saturating at the largest one that can be represented. */
module Durations {
  import opened Numbers

  const MAX_DURATION: nat := U64 * 1_000_000_000 - 1

  type Duration = d: nat | d <= MAX_DURATION witness 0

  function SaturatingAdd(a: Duration, b: Duration): Duration {
    if a + b <= MAX_DURATION then a + b else MAX_DURATION
  }

  function SaturatingMul(d: Duration, n: nat): Duration {
    if d * n <= MAX_DURATION then d * n else MAX_DURATION
  }
}
