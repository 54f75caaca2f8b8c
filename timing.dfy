/** Instants, the expiration sentinel and the recurrence rule for password expiry. */
module Timing {

  /** An instant, in microseconds since 1970-01-01T00:00:00 UTC. */
  type Timestamp = int

  /** 9999-12-31T23:59:59.999999 UTC: the "never expires" sentinel. */
  const FAR_FUTURE: Timestamp := 253402300799999999

  /** The units an expiration interval may be given in. */
  const UNITS: seq<string> := ["years", "months", "weeks", "days"]

  predicate IsUnit(unit: string)
  {
    unit in UNITS
  }

  /**
   * The calendar arithmetic of the date library, which is not modelled:
   * `shift(t, unit, n)` moves `t` forward by `n` calendar units and
   * `floorDay(t)` is the first instant of the day of `t`.
   */
  datatype Calendar = Calendar(shift: (Timestamp, string, int) -> Timestamp, floorDay: Timestamp -> Timestamp)

  /**
   * The next expiration an entry must carry for its recurrence policy:
   * the start of the day `interval` units after `modified`, or the sentinel
   * when the policy is disabled.
   */
  function NextExpiration(cal: Calendar, modified: Timestamp, interval: int, unit: string): Timestamp
  {
    if interval > 0 then cal.floorDay(cal.shift(modified, unit, interval)) else FAR_FUTURE
  }
}
