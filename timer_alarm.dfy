/**
 * TimerAlarm: first rings `delayMinutes` after its creation, then every `periodMinutes`
 * (when that is positive). Both minute counts are turned into milliseconds with a 32-bit
 * int multiplication before being added to the long alarm time.
 */
module TimerAlarms {
  import opened JavaLang
  import opened GregorianCalendar
  import opened EntryRules

  /** Minutes to milliseconds as the int expression `minutes * 60000`, wrapping on overflow. */
  function MinutesToMillis(minutes: int): (ms: int)
    ensures IsInt32(ms)
    ensures Abs(minutes) <= MaxMinutesWithoutOverflow ==> ms == minutes * MillisPerMinute
  {
    Int32(minutes * MillisPerMinute)
  }

  /** The largest minute count whose millisecond value still fits in an int (about 24.8 days). */
  const MaxMinutesWithoutOverflow: int := 35791

  /** The delay the timer stores: negative delays are kept as 0. */
  function StoredDelay(delayMinutes: int): (d: int)
    ensures 0 <= d
    ensures 0 <= delayMinutes ==> d == delayMinutes
  {
    if delayMinutes >= 0 then delayMinutes else 0
  }

  /** The first alarm time, computed from the delay as given (not the clamped one). */
  function FirstAlarm(delayMinutes: int, now: int): int
  {
    now + MinutesToMillis(delayMinutes)
  }

  /**
   * Without overflow, addAlarm accepts a fresh timer exactly when its delay is at least one
   * minute: a zero or negative delay lies within a second of the clock.
   */
  lemma FirstAlarmAdmitted(delayMinutes: int, now: int)
    requires Abs(delayMinutes) <= MaxMinutesWithoutOverflow
    ensures CheckAlarmTime(FirstAlarm(delayMinutes, now), now).Pass? <==> 0 < delayMinutes
  {
  }

  /** A delay past the overflow bound can put the first alarm in the past. */
  lemma FirstAlarmOverflows(now: int)
    ensures FirstAlarm(40000, now) < now
  {
  }

  /** The timer repeats exactly when its period is positive. */
  predicate IsRepeating(periodMinutes: int) { periodMinutes > 0 }

  /** nextAlarm: -1 when not repeating, else one period after the later of the alarm time and now. */
  function NextAlarm(periodMinutes: int, alarmTime: int, now: int): (r: int)
    ensures !IsRepeating(periodMinutes) ==> r == -1
    ensures IsRepeating(periodMinutes) ==>
      r - (if alarmTime > now then alarmTime else now) == MinutesToMillis(periodMinutes)
  {
    if !IsRepeating(periodMinutes) then -1
    else
      var current := if alarmTime > now then alarmTime else now;
      current + MinutesToMillis(periodMinutes)
  }

  /**
   * For a period that does not overflow, the next alarm lies at least a minute after both the
   * previous alarm and the clock, and exactly one period after the previous alarm when that
   * was not yet due.
   */
  lemma NextAlarmAdvances(periodMinutes: int, alarmTime: int, now: int)
    requires 0 < periodMinutes <= MaxMinutesWithoutOverflow
    ensures var r := NextAlarm(periodMinutes, alarmTime, now);
      alarmTime + MillisPerMinute <= r && now + MillisPerMinute <= r &&
      (now < alarmTime ==> r == AddMinutes(alarmTime, periodMinutes))
  {
  }

  /** A period past the overflow bound can make the next alarm earlier than the clock. */
  lemma NextAlarmOverflows(now: int)
    ensures NextAlarm(40000, now, now) < now
  {
  }
}
