/** The unit of time: instants and durations are counted in nanoseconds. */
module Clock {
  const MINUTE := 60_000_000_000
}
