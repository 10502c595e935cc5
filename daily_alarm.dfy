/**
 * DailyAlarm: rings every `period` minutes inside a window [start, end] of each day; an
 * alarm that would fall after `end` moves to `start` on the next day.
 */
module DailyAlarms {
  import opened Wrappers
  import opened GregorianCalendar
  import opened AlarmUtils
  import opened TimeOfDays
  import opened EntryRules

  /** The daily window: rings every `period` minutes from `start` to `end`. */
  datatype Window = Window(start: TimeOfDay, end: TimeOfDay, period: int)

  /** The constructor's check: InvalidParameterException when start comes after end. */
  function CheckWindow(w: Window): (r: Outcome<AlarmError>)
    ensures r.Pass? <==> Compare(w.start, w.end) <= 0
    ensures r.Fail? ==> r.error == InvalidParameter
  {
    if Compare(w.start, w.end) > 0 then Fail(InvalidParameter) else Pass
  }

  /** set(HOUR_OF_DAY), set(MINUTE), set(SECOND), set(MILLISECOND) to the fields of d, keeping the date. */
  function AtTime(t: int, d: TimeOfDay): int
  {
    SetTimeOfDay(t, d.hours, d.minutes, d.seconds, d.millis)
  }

  /** On a valid time of day, AtTime keeps the day and gives exactly that time of day. */
  lemma AtTimeFields(t: int, d: TimeOfDay)
    requires Valid(d)
    ensures Day(AtTime(t, d)) == Day(t) && TimeOfDayAt(AtTime(t, d)) == d
  {
    SetTimeOfDayFields(t, d.hours, d.minutes, d.seconds, d.millis);
  }

  /** The instant nextAlarm starts from: today at start when the alarm is past, else one period on. */
  function Candidate(w: Window, alarmTime: int, now: int): int
  {
    if alarmTime < now then AtTime(now, w.start) else AddMinutes(alarmTime, w.period)
  }

  /** start.compareTo(calendar) > 0: the instant's time of day is before the window opens. */
  predicate BeforeStart(w: Window, t: int)
  {
    Compare(w.start, TimeOfDayAt(t)) > 0
  }

  /** The "not before start" loop from c would never exit. */
  ghost predicate NeverReachesStart(w: Window, c: int)
  {
    forall k: nat :: BeforeStart(w, AddMinutes(c, k * w.period))
  }

  /** A day has 1440 minutes: after 1440 steps of `period` minutes the time of day repeats. */
  const StartSearchBound: nat := 1440

  /**
   * If the first 1440 steps all stay before start, every step does: step k and step
   * k mod 1440 are a whole number of days apart.
   */
  lemma {:induction false} StartSearchPeriodic(w: Window, c: int)
    requires 0 < w.period
    requires forall j | 0 <= j < StartSearchBound :: BeforeStart(w, AddMinutes(c, j * w.period))
    ensures NeverReachesStart(w, c)
  {
    forall k: nat
      ensures BeforeStart(w, AddMinutes(c, k * w.period))
    {
      var q, j := k / StartSearchBound, k % StartSearchBound;
      var u := AddMinutes(c, j * w.period);
      assert k * w.period == j * w.period + q * w.period * StartSearchBound;
      assert AddMinutes(c, k * w.period) == AddDays(u, q * w.period);
      AddDaysFields(u, q * w.period);
      assert BeforeStart(w, u);
    }
  }

  /**
   * The "not before start" search as a value: the first of c, c + period, c + 2 period, ...
   * (from step n on) whose time of day is not before start, given up after 1440 steps.
   */
  function StartSearch(w: Window, c: int, n: nat): (r: Result<int, Fault>)
    requires 0 < w.period && n <= StartSearchBound
    decreases StartSearchBound - n
  {
    var t := AddMinutes(c, n * w.period);
    if !BeforeStart(w, t) then Success(t)
    else if n == StartSearchBound then Failure(Diverges)
    else StartSearch(w, c, n + 1)
  }

  /**
   * The search finds the first step whose time of day is not before start, and gives up
   * exactly when the source's loop would never exit.
   */
  lemma {:induction false} StartSearchFindsFirst(w: Window, c: int, n: nat)
    requires 0 < w.period && n <= StartSearchBound
    requires forall j | 0 <= j < n :: BeforeStart(w, AddMinutes(c, j * w.period))
    ensures var r := StartSearch(w, c, n);
      (r.Failure? <==> NeverReachesStart(w, c)) && (r.Failure? ==> r.error == Diverges) &&
      (r.Success? ==> c <= r.value && !BeforeStart(w, r.value)) &&
      (r.Success? ==> exists k: nat :: r.value == AddMinutes(c, k * w.period) && !BeforeStart(w, r.value) &&
                        forall j | 0 <= j < k :: BeforeStart(w, AddMinutes(c, j * w.period)))
    decreases StartSearchBound - n
  {
    var t := AddMinutes(c, n * w.period);
    if !BeforeStart(w, t) {
      assert 0 <= n * w.period;
      assert !BeforeStart(w, AddMinutes(c, n * w.period));
    } else if n == StartSearchBound {
      StartSearchPeriodic(w, c);
    } else {
      StartSearchFindsFirst(w, c, n + 1);
    }
  }

  /** The "not before start" loop: add the period until the time of day is not before start. */
  method StepToStart(w: Window, c: int) returns (r: Result<int, Fault>)
    requires 0 < w.period
    ensures r == StartSearch(w, c, 0)
  {
    var t := c;
    var n: nat := 0;
    while BeforeStart(w, t)
      invariant n <= StartSearchBound && t == AddMinutes(c, n * w.period)
      invariant StartSearch(w, c, n) == StartSearch(w, c, 0)
      decreases StartSearchBound - n
    {
      if n == StartSearchBound {
        return Failure(Diverges);
      }
      t := AddMinutes(t, w.period);
      n := n + 1;
    }
    return Success(t);
  }

  /** The end check: past end, the alarm moves to start on the next day. */
  function ClampToWindow(w: Window, t: int): int
  {
    if Compare(w.end, TimeOfDayAt(t)) < 0 then AtTime(AddDays(t, 1), w.start) else t
  }

  /**
   * For a valid start not after end, an instant not before start is clamped to an instant
   * no earlier than itself whose time of day lies in the window.
   */
  lemma ClampInWindow(w: Window, t: int)
    requires Valid(w.start) && Compare(w.start, w.end) <= 0 && !BeforeStart(w, t)
    ensures var r := ClampToWindow(w, t);
      t <= r && Compare(w.start, TimeOfDayAt(r)) <= 0 && Compare(TimeOfDayAt(r), w.end) <= 0
  {
    if Compare(w.end, TimeOfDayAt(t)) < 0 {
      var next := AtTime(AddDays(t, 1), w.start);
      AtTimeFields(AddDays(t, 1), w.start);
      AddDaysFields(t, 1);
      DaySplit(t);
      DaySplit(next);
      CompareZeroIffEquals(w.start, TimeOfDayAt(next));
    } else {
      CompareIsOrder(TimeOfDayAt(t), w.end, w.start);
    }
  }

  /**
   * What nextAlarm computes: -1 when the alarm does not repeat; otherwise the candidate put
   * on its period grid by checkDateAlarm, stepped until it is not before start, and moved to
   * start on the next day when it is after end.
   */
  function DailyNext(w: Window, alarmTime: int, now: int): Result<int, Fault>
  {
    if w.period <= 0 then Success(-1)
    else
      match StartSearch(w, Checked(Candidate(w, alarmTime, now), w.period, now), 0)
      case Failure(e) => Failure(e)
      case Success(t) => Success(ClampToWindow(w, t))
  }

  /** A repeating daily alarm fails only when the source's "not before start" loop would never exit. */
  lemma DailyNextFails(w: Window, alarmTime: int, now: int)
    requires 0 < w.period
    ensures var r := DailyNext(w, alarmTime, now);
      (r.Failure? <==> NeverReachesStart(w, Checked(Candidate(w, alarmTime, now), w.period, now))) &&
      (r.Failure? ==> r.error == Diverges)
  {
    StartSearchFindsFirst(w, Checked(Candidate(w, alarmTime, now), w.period, now), 0);
  }

  /**
   * For a valid window, the next alarm of a repeating daily alarm is not before the clock
   * (seconds set to 2), comes after a previous alarm that was not yet due, and its time of
   * day lies in [start, end].
   */
  lemma DailyNextInWindow(w: Window, alarmTime: int, now: int)
    requires 0 < w.period && Valid(w.start) && Compare(w.start, w.end) <= 0
    ensures var r := DailyNext(w, alarmTime, now);
      r.Success? ==>
        SetSecond(now, 2) <= r.value && (now <= alarmTime ==> alarmTime < r.value) &&
        Compare(w.start, TimeOfDayAt(r.value)) <= 0 && Compare(TimeOfDayAt(r.value), w.end) <= 0
  {
    var c := Checked(Candidate(w, alarmTime, now), w.period, now);
    StartSearchFindsFirst(w, c, 0);
    var s := StartSearch(w, c, 0);
    if s.Success? {
      ClampInWindow(w, s.value);
    }
  }

  /** nextAlarm of a DailyAlarm, with `now` the clock reading. */
  method NextAlarm(w: Window, alarmTime: int, now: int) returns (r: Result<int, Fault>)
    ensures r == DailyNext(w, alarmTime, now)
  {
    if w.period <= 0 {
      return Success(-1);
    }
    var c := Candidate(w, alarmTime, now);
    c := CheckDateAlarm(c, w.period, now);
    var t :- StepToStart(w, c);
    return Success(ClampToWindow(w, t));
  }

  /**
   * The alarm time an embedded DailyAlarm holds after setAlarmTime(alarmTime) and
   * updateAlarmTime(): its next alarm when that is positive, else the time it was given.
   */
  function UpdatedAlarmTime(w: Window, alarmTime: int, now: int): (r: Result<int, Fault>)
    ensures w.period <= 0 ==> r == Success(alarmTime)
  {
    var next :- DailyNext(w, alarmTime, now);
    Success(if next > 0 then next else alarmTime)
  }

  /**
   * A repeating embedded daily alarm moves to a positive instant in its window, after the
   * previous alarm when that was not yet due and not before the clock (seconds set to 2).
   */
  lemma UpdatedAlarmTimeInWindow(w: Window, alarmTime: int, now: int)
    requires 0 < w.period && Valid(w.start) && Compare(w.start, w.end) <= 0 && MillisPerMinute <= now
    ensures var r := UpdatedAlarmTime(w, alarmTime, now);
      (r.Failure? <==> DailyNext(w, alarmTime, now).Failure?) &&
      (r.Success? ==>
         r == DailyNext(w, alarmTime, now) && 0 < r.value && SetSecond(now, 2) <= r.value &&
         (now <= alarmTime ==> alarmTime < r.value) &&
         Compare(w.start, TimeOfDayAt(r.value)) <= 0 && Compare(TimeOfDayAt(r.value), w.end) <= 0)
  {
    DailyNextInWindow(w, alarmTime, now);
  }
}
