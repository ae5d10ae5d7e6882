/** Time units used by the board. All instants are integers in milliseconds. */
module Clock {
  const MINUTE_MS: int := 60 * 1000
  const HOUR_MS: int := 60 * MINUTE_MS

  /** A session closes this long after it opens (30 minutes). */
  const SESSION_LENGTH_MS: int := 30 * MINUTE_MS

  /** A countdown to opening is only displayed when it reads at most this many minutes. */
  const COUNTDOWN_WINDOW_MIN: int := 30
}
