/**
 * The parts of AlarmEntry that every kind of alarm shares and that do not depend on the
 * object's identity: the "not in the past" check, the ordering key of the alarm queue and
 * checkDateAlarm, which moves a candidate alarm time forward on its period grid until it is
 * no earlier than the current time.
 */
module EntryRules {
  import opened Wrappers
  import opened JavaLang
  import opened GregorianCalendar
  import opened AlarmUtils

  /** The exceptions an alarm's construction or registration can raise. */
  datatype AlarmError =
    | PastDate                    // PastDateException
    | InvalidParameter            // InvalidParameterException
    | RuntimeFault(fault: Fault)  // an unchecked exception, or a loop that would not end

  /** Milliseconds an alarm must lie ahead of the clock to be accepted. */
  const MinimumDelay: int := 1000

  /** checkAlarmTime: PastDateException unless the alarm is more than one second ahead of `now`. */
  function CheckAlarmTime(alarmTime: int, now: int): (r: Outcome<AlarmError>)
    ensures r.Pass? <==> now + MinimumDelay < alarmTime
    ensures r.Fail? ==> r.error == PastDate
  {
    if alarmTime - now <= MinimumDelay then Fail(PastDate) else Pass
  }

  // ---------------------------------------------------------------- queue order

  /** What compareTo looks at: alarm time, then last update time, then the UUID, then the name. */
  datatype EntryKey = EntryKey(alarmTime: int, lastUpdateTime: int, uuid: int, name: string)

  function Sign(x: int): int { if x < 0 then -1 else if x > 0 then 1 else 0 }

  /** compareTo(AlarmEntry); UUID.compareTo yields -1, 0 or 1. */
  function CompareKeys(a: EntryKey, b: EntryKey): (r: int)
    ensures r == 0 <==> a == b
  {
    if a.alarmTime < b.alarmTime then -1
    else if a.alarmTime > b.alarmTime then 1
    else if a.lastUpdateTime < b.lastUpdateTime then -1
    else if a.lastUpdateTime > b.lastUpdateTime then 1
    else if a.uuid != b.uuid then Sign(a.uuid - b.uuid)
    else CompareStrings(a.name, b.name)
  }

  predicate KeyBefore(a: EntryKey, b: EntryKey) { CompareKeys(a, b) < 0 }

  /** compareTo is antisymmetric. */
  lemma CompareKeysAntisymmetric(a: EntryKey, b: EntryKey)
    ensures Sign(CompareKeys(a, b)) == -Sign(CompareKeys(b, a))
  {
    CompareStringsAntisymmetric(a.name, b.name);
  }

  /** compareTo is transitive, so the queue is a strict total order on keys. */
  lemma CompareKeysTransitive(a: EntryKey, b: EntryKey, c: EntryKey)
    requires KeyBefore(a, b) && KeyBefore(b, c)
    ensures KeyBefore(a, c)
  {
    if a.alarmTime == b.alarmTime == c.alarmTime && a.lastUpdateTime == b.lastUpdateTime == c.lastUpdateTime
       && a.uuid == b.uuid == c.uuid {
      CompareStringsTransitive(a.name, b.name, c.name);
    }
  }

  /** An earlier alarm time always comes first in the queue. */
  lemma EarlierFirst(a: EntryKey, b: EntryKey)
    requires a.alarmTime < b.alarmTime
    ensures KeyBefore(a, b) && !KeyBefore(b, a)
  {
  }

  // ---------------------------------------------------------------- checkDateAlarm

  /**
   * The date part of checkDateAlarm: n2's year when the alarm's year is earlier, then n2's day
   * of the year when the alarm's day is earlier; the time of day is kept.
   */
  function MovedToDay(t: int, n2: int): (r: int)
    ensures t <= r && MillisOfDay(r) == MillisOfDay(t)
  {
    var t1 := if Year(t) < Year(n2) then SetYear(t, Year(n2)) else t;
    SetYearKeepsTime(t, Year(n2));
    SetDayOfYearKeepsTime(t1, DayOfYear(n2));
    assert t <= t1 by {
      if Year(t) < Year(n2) { SetYearLater(t, Year(n2)); }
    }
    assert t1 <= SetDayOfYear(t1, DayOfYear(n2)) || DayOfYear(n2) <= DayOfYear(t1) by {
      if DayOfYear(t1) < DayOfYear(n2) { SetDayOfYearLater(t1, DayOfYear(n2)); }
    }
    if DayOfYear(t1) < DayOfYear(n2) then SetDayOfYear(t1, DayOfYear(n2)) else t1
  }

  /**
   * The minutes checkDateAlarm adds after moving the date: as many whole periods as fit in the
   * int count of minutes from t2 to n2, or none when not one fits.
   */
  function PeriodMinutes(t2: int, periodMinute: int, n2: int): (m: int)
    requires 0 < periodMinute
    ensures 0 <= m
  {
    var delta := Int32(Div(n2 - t2, MillisPerMinute));
    var nb := Div(delta, periodMinute);
    if nb > 0 then
      assert 0 < nb * periodMinute <= delta by { PositiveQuotient(delta, periodMinute, nb); }
      Int32(nb * periodMinute)
    else 0
  }

  /**
   * The first half of checkDateAlarm: an alarm earlier than n2 is moved to n2's day as far as
   * its year and day are earlier, and is then moved on by as many whole periods as fit in the
   * remaining minutes.
   */
  function Realigned(t: int, periodMinute: int, n2: int): (r: int)
    requires 0 < periodMinute
    ensures t <= r
    ensures n2 <= t ==> r == t
  {
    if n2 <= t then t
    else
      var t2 := MovedToDay(t, n2);
      AddMinutes(t2, PeriodMinutes(t2, periodMinute, n2))
  }

  lemma PositiveQuotient(a: int, b: int, q: int)
    requires 0 < b && q == Div(a, b) && 0 < q
    ensures 0 < q * b <= a
  {
    MulAtLeast(q, b);
  }

  /** The least number of steps of length `step` that covers a distance x. */
  function StepsToReach(x: int, step: int): (k: nat)
    requires 0 < step
    ensures x <= k * step
    ensures k == 0 || (k - 1) * step < x
  {
    if x <= 0 then 0
    else
      var k := (x + step - 1) / step;
      DivMod(k, (x + step - 1) % step, step);
      k
  }

  /** The first instant at or after n2 that lies a whole number of steps after start. */
  function FirstOnGrid(start: int, step: int, n2: int): (r: int)
    requires 0 < step
    ensures start <= r && n2 <= r
    ensures n2 <= start ==> r == start
    ensures r == start || r - step < n2
  {
    var k := StepsToReach(n2 - start, step);
    assert k == 0 || start + (k - 1) * step < n2;
    start + k * step
  }

  /**
   * What checkDateAlarm leaves in the calendar: the first instant on the period grid from
   * Realigned(...) that is not before n2, the clock reading `now` with its seconds set to 2.
   */
  function Checked(alarm: int, periodMinute: int, now: int): (r: int)
    requires 0 < periodMinute
    ensures alarm <= r && SetSecond(now, 2) <= r
    ensures SetSecond(now, 2) <= alarm ==> r == alarm
  {
    FirstOnGrid(Realigned(alarm, periodMinute, SetSecond(now, 2)), periodMinute * MillisPerMinute, SetSecond(now, 2))
  }

  /** checkDateAlarm(newAlarm, periodMinute), with `now` the clock reading it takes. */
  method CheckDateAlarm(alarm: int, periodMinute: int, now: int) returns (r: int)
    requires 0 < periodMinute
    ensures r == Checked(alarm, periodMinute, now)
  {
    var n2 := SetSecond(now, 2);
    var start := Realigned(alarm, periodMinute, n2);
    r := StepPast(start, periodMinute, n2);
  }

  /** The closing loop of checkDateAlarm: add the period while the alarm is before n2. */
  method StepPast(start: int, periodMinute: int, n2: int) returns (r: int)
    requires 0 < periodMinute
    ensures r == FirstOnGrid(start, periodMinute * MillisPerMinute, n2)
  {
    var step := periodMinute * MillisPerMinute;
    ghost var k := 0;
    r := start;
    while r < n2
      invariant r == start + k * step
      invariant k == 0 || r - step < n2
      decreases n2 - r
    {
      r := AddMinutes(r, periodMinute);
      k := k + 1;
    }
    assert k == StepsToReach(n2 - start, step) by {
      if k > 0 {
        var x := n2 - start;
        DivMod(k, x + step - 1 - k * step, step);
      }
    }
  }

  /** checkDateAlarm keeps an alarm on a whole minute: every step it takes is whole minutes or whole days. */
  lemma CheckedOnWholeMinute(alarm: int, periodMinute: int, now: int)
    requires 0 < periodMinute && alarm % MillisPerMinute == 0
    ensures Checked(alarm, periodMinute, now) % MillisPerMinute == 0
  {
    var n2 := SetSecond(now, 2);
    var start := Realigned(alarm, periodMinute, n2);
    RealignedOnWholeMinute(alarm, periodMinute, n2);
    GridOnWholeMinute(start, periodMinute, n2);
  }

  /** Whole periods of whole minutes keep an instant on a whole minute. */
  lemma GridOnWholeMinute(start: int, periodMinute: int, n2: int)
    requires 0 < periodMinute && start % MillisPerMinute == 0
    ensures FirstOnGrid(start, periodMinute * MillisPerMinute, n2) % MillisPerMinute == 0
  {
    var k := StepsToReach(n2 - start, periodMinute * MillisPerMinute);
    MulAssociates(k, periodMinute, MillisPerMinute);
    ShiftKeepsGrid(start, k * periodMinute);
  }

  lemma RealignedOnWholeMinute(t: int, periodMinute: int, n2: int)
    requires 0 < periodMinute && t % MillisPerMinute == 0
    ensures Realigned(t, periodMinute, n2) % MillisPerMinute == 0
  {
    if t < n2 {
      var t2 := MovedToDay(t, n2);
      MovedOnWholeMinute(t, n2);
      ShiftKeepsGrid(t2, PeriodMinutes(t2, periodMinute, n2));
    }
  }

  lemma MovedOnWholeMinute(t: int, n2: int)
    requires t % MillisPerMinute == 0
    ensures MovedToDay(t, n2) % MillisPerMinute == 0
  {
    MinuteGrid(t);
    MinuteGrid(MovedToDay(t, n2));
  }

  lemma MulAssociates(a: int, b: int, c: int)
    ensures a * (b * c) == (a * b) * c
  {
  }

  lemma ShiftKeepsGrid(t: int, x: int)
    ensures (t + x * MillisPerMinute) % MillisPerMinute == t % MillisPerMinute
  {
    DivMod(t / MillisPerMinute + x, t % MillisPerMinute, MillisPerMinute);
  }
}
