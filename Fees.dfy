/** Duration and fee arithmetic of the ledger: whole minutes parked,
    truncated toward zero as Python's `int()` does, and a flat rate per
    started hour, rounded up as `math.ceil` does. Both are written out for
    negative operands too, since Dafny's `/` rounds differently there. */
module Fees {
  import opened Models

  const SecondsPerMinute := 60
  const MinutesPerHour := 60
  /** Price of one started hour. */
  const HourlyRate := 2000

  /** Whole minutes from `from` to `to`, truncated toward zero. */
  function ElapsedMinutes(from: Time, to: Time): (m: int)
    ensures to - from >= 0 ==> 0 <= m && SecondsPerMinute * m <= to - from < SecondsPerMinute * (m + 1)
    ensures to - from < 0 ==> m <= 0 && SecondsPerMinute * (m - 1) < to - from <= SecondsPerMinute * m
  {
    var delta := to - from;
    if delta >= 0 then delta / SecondsPerMinute else -((-delta) / SecondsPerMinute)
  }

  /** Minutes of a closed stay, from entry to exit. */
  function CalculateMinutes(log: ParkingLog): (m: int)
    requires log.exitedAt.Some?
    ensures log.enteredAt <= log.exitedAt.value ==> m >= 0
  {
    ElapsedMinutes(log.enteredAt, log.exitedAt.value)
  }

  /** Hours to bill: the least whole number of hours covering `minutes`. */
  function StartedHours(minutes: int): (h: int)
    ensures MinutesPerHour * (h - 1) < minutes <= MinutesPerHour * h
  {
    -((-minutes) / MinutesPerHour)
  }

  /** `HourlyRate` for every started hour; a stay of zero minutes is free. */
  function CalculateFee(minutes: int): (fee: int)
    ensures fee % HourlyRate == 0
    ensures MinutesPerHour * (fee / HourlyRate - 1) < minutes <= MinutesPerHour * (fee / HourlyRate)
    ensures minutes >= 0 ==> fee >= 0
  {
    StartedHours(minutes) * HourlyRate
  }

  /** Staying longer never costs less. */
  lemma FeeMonotone(m1: int, m2: int)
    requires m1 <= m2
    ensures CalculateFee(m1) <= CalculateFee(m2)
  {
  }

  /** The billing table's reference points. */
  lemma FeeExamples()
    ensures CalculateFee(0) == 0
    ensures CalculateFee(1) == 2000
    ensures CalculateFee(60) == 2000
    ensures CalculateFee(61) == 4000
    ensures CalculateFee(90) == 4000
  {
  }

  /** A 125-second stay counts as 2 minutes; 10:00:00 to 11:30:00 counts as
      90 minutes and costs two hours; a car that has just entered has stayed
      0 minutes and owes nothing. */
  lemma DurationExamples(t: Time)
    ensures ElapsedMinutes(t, t + 125) == 2
    ensures ElapsedMinutes(36000, 41400) == 90 && CalculateFee(ElapsedMinutes(36000, 41400)) == 4000
    ensures ElapsedMinutes(t, t) == 0 && CalculateFee(ElapsedMinutes(t, t)) == 0
  {
  }
}
