/** The two clock gates of the monitor: how many days ahead to scan for free courts, and
    whether the current hour falls inside the operating window at all. The hour is the
    hour of the day on the Asia/Shanghai clock, passed in by the caller. */
module Schedule {

  /** The hour from which the day after the last scanned day also opens for booking. */
  const EveningRelease := 18

  /** The operating window used when `BEGIN_HOUR` and `END_HOUR` are not set. */
  const DefaultBeginHour := 8
  const DefaultEndHour := 21

  /** `get_check_days_count()`: before 18:00 today and the next two days can be booked
      (3 days), from 18:00 on today and the next three days (4 days). */
  function CheckDaysCount(hour: int): (days: int)
    ensures days == 3 || days == 4
    ensures days == 3 <==> hour < EveningRelease
    ensures days == 4 <==> hour >= EveningRelease
  {
    if hour < EveningRelease then 3 else 4
  }

  /** A later hour of the same day never scans fewer days. */
  lemma CheckDaysMonotone(h1: int, h2: int)
    requires h1 <= h2
    ensures CheckDaysCount(h1) <= CheckDaysCount(h2)
    ensures CheckDaysCount(h2) - CheckDaysCount(h1) <= 1
  {
  }

  /** `check_time_availability()`: the hour lies in `[begin, end)`. */
  function InOperatingWindow(hour: int, begin: int, end: int): (open: bool)
    ensures open <==> begin <= hour && hour < end
    ensures open ==> begin < end
  {
    begin <= hour < end
  }

  /** With the default settings the monitor runs from 08:00 up to but not including 21:00,
      that is, during the thirteen hours 8 to 20. */
  lemma DefaultWindow(hour: int)
    ensures InOperatingWindow(hour, DefaultBeginHour, DefaultEndHour) <==> 8 <= hour <= 20
  {
  }

  /** A window whose end does not come after its begin never opens. */
  lemma EmptyWindow(hour: int, begin: int, end: int)
    requires end <= begin
    ensures !InOperatingWindow(hour, begin, end)
  {
  }
}
