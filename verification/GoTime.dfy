/** Instants and durations, in nanoseconds; instants count from the Unix epoch. */
module GoTime {
  const SECOND := 1_000_000_000
  const MINUTE := 60_000_000_000
  const DAY := 24 * 60 * MINUTE

  /** Go's zero time, 1 January of year 1. */
  const ZERO_TIME := -62_135_596_800_000_000_000
}
