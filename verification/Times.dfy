/** Times and durations are whole nanoseconds. */
module Times {
  const SECOND := 1_000_000_000
}
