/** Values shared by the whole burndown engine: optional values, the two hard
    failures of the engine, and instants measured in whole seconds. */
module Common {

  datatype Option<+T> = None | Some(value: T)

  /** The failures the engine lets escape instead of masking them:
      a card with neither a note nor linked content (the attribute lookup on
      the missing content fails), and a division by a day count of zero. */
  datatype Error = MissingContent | DivisionByZero

  datatype Result<+T> = Ok(value: T) | Err(error: Error)

  /** An absolute instant, in whole seconds since a fixed epoch. Every
      timestamp of the board is assumed to be on this one clock already. */
  type Instant = int

  const SecondsPerDay: int := 86400

  /** `(t - start).days`: the whole days of a time difference, rounded towards
      minus infinity (an instant one second before `start` is on day -1). */
  function DayOffset(t: Instant, start: Instant): (d: int)
    ensures start + d * SecondsPerDay <= t < start + (d + 1) * SecondsPerDay
  {
    (t - start) / SecondsPerDay
  }
}
