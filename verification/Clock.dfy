/** Instants and durations are whole nanoseconds, the resolution of the source's clock. */
module Clock {
  const SECOND: int := 1_000_000_000
  const MINUTE: int := 60 * SECOND
}
