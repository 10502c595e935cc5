/**
 * AlarmEntry: the state every alarm holds (name, UUID, alarm time, time of the last update,
 * whether it repeats) and the operations on it; the six kinds of alarm (DateAlarm,
 * TimerAlarm, DailyAlarm, WeeklyAlarm, MonthlyAlarm, CronAlarm) differ in their constructor
 * and in nextAlarm, which are gathered here by kind.
 *
 * The clock is a parameter `now`, one reading per operation; the random UUID is a parameter
 * too, given as its place in UUID order and its text.
 */
module Alarms {
  import opened Wrappers
  import opened JavaLang
  import opened AlarmUtils
  import opened EntryRules
  import opened DailyAlarms
  import TimerAlarms
  import WeeklyAlarms
  import MonthlyAlarms
  import CronAlarms
  import CronParameters
  import SchedulingPatterns

  /** The class of an alarm, as getClass() tells them apart. */
  datatype AlarmClass = DateAlarm | TimerAlarm | DailyAlarm | WeeklyAlarm | MonthlyAlarm | CronAlarm

  /** What each kind of alarm keeps besides the common fields: what its nextAlarm reads. */
  datatype Schedule =
    | OneShot
    | Timer(delayMinutes: int, periodMinutes: int)
    | Daily(window: Window)
    | Weekly(weekWindow: Window, daysOfWeek: seq<int>)
    | Monthly(monthWindow: Window, daysOfMonth: seq<int>)
    | Cron(fields: CronParameters.CronFields)

  function ClassOf(s: Schedule): AlarmClass
  {
    match s
    case OneShot => DateAlarm
    case Timer(_, _) => TimerAlarm
    case Daily(_) => DailyAlarm
    case Weekly(_, _) => WeeklyAlarm
    case Monthly(_, _) => MonthlyAlarm
    case Cron(_) => CronAlarm
  }

  /**
   * isRepeating as the constructors leave it: never for a date alarm, for a timer or a daily
   * alarm exactly when its period is positive, always for the other three.
   */
  predicate Repeats(s: Schedule)
  {
    match s
    case OneShot => false
    case Timer(_, period) => TimerAlarms.IsRepeating(period)
    case Daily(w) => 0 < w.period
    case _ => true
  }

  /** nextAlarm of each kind, from the alarm time the entry holds and the clock reading. */
  function Next(s: Schedule, alarmTime: int, now: int): Result<int, Fault>
  {
    match s
    case OneShot => Success(-1)
    case Timer(_, period) => Success(TimerAlarms.NextAlarm(period, alarmTime, now))
    case Daily(w) => DailyNext(w, alarmTime, now)
    case Weekly(w, days) => WeeklyAlarms.WeeklyNext(w, days, alarmTime, now)
    case Monthly(w, days) => MonthlyAlarms.MonthlyNext(w, days, alarmTime, now)
    case Cron(f) => CronAlarms.CronNext(f, alarmTime, now)
  }

  /** nextAlarm as each kind of alarm overrides it, computed by that kind's own loops. */
  method NextAlarm(schedule: Schedule, alarmTime: int, now: int) returns (r: Result<int, Fault>)
    ensures r == Next(schedule, alarmTime, now)
  {
    if schedule.OneShot? {
      r := Success(-1);
    } else if schedule.Timer? {
      r := Success(TimerAlarms.NextAlarm(schedule.periodMinutes, alarmTime, now));
    } else if schedule.Daily? {
      r := DailyAlarms.NextAlarm(schedule.window, alarmTime, now);
    } else if schedule.Weekly? {
      r := WeeklyAlarms.NextAlarm(schedule.weekWindow, schedule.daysOfWeek, alarmTime, now);
    } else if schedule.Monthly? {
      r := MonthlyAlarms.NextAlarm(schedule.monthWindow, schedule.daysOfMonth, alarmTime, now);
    } else {
      r := CronAlarms.NextAlarm(schedule.fields, alarmTime, now);
    }
  }

  /** A date alarm never asks to be rung again. */
  lemma DateAlarmHasNoNext(alarmTime: int, now: int)
    ensures !Repeats(OneShot) && Next(OneShot, alarmTime, now) == Success(-1)
  {
  }

  /** A timer that repeats moves on by its period from the later of its alarm time and the clock. */
  lemma TimerNextAdvances(delay: int, period: int, alarmTime: int, now: int)
    requires 0 < period <= TimerAlarms.MaxMinutesWithoutOverflow
    ensures Repeats(Timer(delay, period))
    ensures var r := Next(Timer(delay, period), alarmTime, now);
      r.Success? && alarmTime < r.value && now < r.value
  {
    TimerAlarms.NextAlarmAdvances(period, alarmTime, now);
  }

  class AlarmEntry {
    var name: string
    const uuid: int
    const uuidText: string
    var ringInDedicatedThread: bool
    var alarmTime: int
    var lastUpdateTime: int
    const isRepeating: bool
    const schedule: Schedule
    /**
     * nextAlarm() as the entry's class overrides it, a function of the alarm time and the
     * clock: the constructor binds it to the kind's own computation.
     */
    const nextAlarmOf: (int, int) -> Result<int, Fault>

    /** What compareTo looks at. */
    function Key(): EntryKey
      reads this
    {
      EntryKey(alarmTime, lastUpdateTime, uuid, name)
    }

    /**
     * The field initialisers of AlarmEntry, then isRepeating as the subclass constructor sets
     * it; the UUID is the one UUID.randomUUID() drew.
     */
    constructor (uuid: int, uuidText: string, schedule: Schedule)
      ensures Key() == EntryKey(0, 0, uuid, "") && this.uuidText == uuidText
      ensures this.schedule == schedule && isRepeating == Repeats(schedule) && !ringInDedicatedThread
      ensures forall t, n :: nextAlarmOf(t, n) == Next(schedule, t, n)
    {
      this.uuid := uuid;
      this.uuidText := uuidText;
      this.schedule := schedule;
      nextAlarmOf := (t, n) => Next(schedule, t, n);
      isRepeating := Repeats(schedule);
      name := "";
      ringInDedicatedThread := false;
      alarmTime := 0;
      lastUpdateTime := 0;
    }

    /** setAlarmTime: the new alarm time, and the clock reading as the time of the last update. */
    method SetAlarmTime(t: int, now: int)
      modifies this
      ensures alarmTime == t && lastUpdateTime == now
      ensures name == old(name) && ringInDedicatedThread == old(ringInDedicatedThread)
    {
      alarmTime := t;
      lastUpdateTime := now;
    }

    /** setName: the given name, or the UUID's text for null. */
    method SetName(newName: Option<string>)
      modifies this
      ensures name == (if newName.Some? then newName.value else uuidText)
      ensures alarmTime == old(alarmTime) && lastUpdateTime == old(lastUpdateTime)
      ensures ringInDedicatedThread == old(ringInDedicatedThread)
    {
      if newName.Some? {
        name := newName.value;
      } else {
        name := uuidText;
      }
    }

    method SetRingInDedicatedThread(dedicated: bool)
      modifies this
      ensures ringInDedicatedThread == dedicated
      ensures Key() == old(Key())
    {
      ringInDedicatedThread := dedicated;
    }

    /**
     * updateAlarmTime: a repeating entry whose next alarm is positive takes it (and the clock
     * reading as its last update) and answers true; otherwise nothing changes and the answer
     * is false. An exception from nextAlarm leaves the entry as it was.
     */
    method UpdateAlarmTime(now: int) returns (r: Result<bool, Fault>)
      modifies this
      ensures var next := nextAlarmOf(old(alarmTime), now);
        (r.Failure? <==> isRepeating && next.Failure?) &&
        (r.Failure? ==> r.error == next.error) &&
        (r == Success(true) <==> isRepeating && next.Success? && 0 < next.value) &&
        (r == Success(true) ==> alarmTime == next.value && lastUpdateTime == now)
      ensures r != Success(true) ==> alarmTime == old(alarmTime) && lastUpdateTime == old(lastUpdateTime)
      ensures name == old(name) && ringInDedicatedThread == old(ringInDedicatedThread)
    {
      r := Success(false);
      if isRepeating {
        var next :- nextAlarmOf(alarmTime, now);
        if next > 0 {
          SetAlarmTime(next, now);
          r := Success(true);
        }
      }
    }
  }

  /**
   * equals as written: the same object, or an object of the same class with the same alarm
   * time, last update time and name but a DIFFERENT UUID.
   */
  predicate Equals(a: AlarmEntry, b: AlarmEntry?)
    reads a, b
  {
    if a == b then true
    else if b == null then false
    else if ClassOf(a.schedule) != ClassOf(b.schedule) then false
    else a.alarmTime == b.alarmTime && a.lastUpdateTime == b.lastUpdateTime && a.uuid != b.uuid && a.name == b.name
  }

  /**
   * equals and compareTo disagree on every pair of distinct entries: equals never holds when
   * compareTo answers 0, and when equals holds the keys differ, in the UUID alone.
   */
  lemma EqualsDisagreesWithCompare(a: AlarmEntry, b: AlarmEntry)
    requires a != b
    ensures CompareKeys(a.Key(), b.Key()) == 0 ==> !Equals(a, b)
    ensures Equals(a, b) ==> CompareKeys(a.Key(), b.Key()) != 0 && a.Key().(uuid := b.uuid) == b.Key()
  {
  }

  // ---------------------------------------------------------------- the constructors

  /**
   * new DateAlarm(name, date, ...): rings once at `date`; PastDateException when that is not
   * more than a second ahead of the clock.
   */
  method NewDateAlarm(name: Option<string>, date: int, dedicated: bool, uuid: int, uuidText: string, now: int)
    returns (r: Result<AlarmEntry, AlarmError>)
    ensures r.Failure? <==> date - now <= MinimumDelay
    ensures r.Failure? ==> r.error == PastDate
    ensures r.Success? ==> fresh(r.value) && r.value.schedule == OneShot && !r.value.isRepeating
    ensures r.Success? ==> r.value.alarmTime == date && r.value.lastUpdateTime == now
  {
    var e := new AlarmEntry(uuid, uuidText, OneShot);
    e.SetName(name);
    e.SetRingInDedicatedThread(dedicated);
    e.SetAlarmTime(date, now);
    var check := CheckAlarmTime(e.alarmTime, now);
    if check.Fail? {
      return Failure(check.error);
    }
    return Success(e);
  }

  /**
   * new TimerAlarm(name, delayMinutes, periodMinutes, ...): a negative delay is stored as 0,
   * but the first alarm time adds the delay as given to the clock.
   */
  method NewTimerAlarm(name: Option<string>, delayMinutes: int, periodMinutes: int, dedicated: bool,
                       uuid: int, uuidText: string, now: int)
    returns (e: AlarmEntry)
    ensures fresh(e) && e.schedule == Timer(TimerAlarms.StoredDelay(delayMinutes), periodMinutes)
    ensures e.isRepeating <==> 0 < periodMinutes
    ensures e.alarmTime == TimerAlarms.FirstAlarm(delayMinutes, now) && e.lastUpdateTime == now
  {
    e := new AlarmEntry(uuid, uuidText, Timer(TimerAlarms.StoredDelay(delayMinutes), periodMinutes));
    e.SetName(name);
    e.SetRingInDedicatedThread(dedicated);
    e.SetAlarmTime(TimerAlarms.FirstAlarm(delayMinutes, now), now);
  }

  /**
   * The common tail of the constructors that end with updateAlarmTime(): an exception it
   * raises is the constructor's.
   */
  method FirstUpdate(e: AlarmEntry, now: int) returns (r: Result<AlarmEntry, AlarmError>)
    modifies e
    ensures var next := e.nextAlarmOf(old(e.alarmTime), now);
      (r.Failure? <==> e.isRepeating && next.Failure?) &&
      (r.Failure? ==> r.error == RuntimeFault(next.error)) &&
      (r.Success? ==> (r.value == e &&
                       (if e.isRepeating && 0 < next.value then e.alarmTime == next.value && e.lastUpdateTime == now
                        else e.alarmTime == old(e.alarmTime) && e.lastUpdateTime == old(e.lastUpdateTime))))
    ensures e.name == old(e.name) && e.ringInDedicatedThread == old(e.ringInDedicatedThread)
  {
    var updated := e.UpdateAlarmTime(now);
    if updated.Failure? {
      return Failure(RuntimeFault(updated.error));
    }
    return Success(e);
  }

  /**
   * new DailyAlarm(name, start, end, period, ...): InvalidParameterException when start comes
   * after end; otherwise updateAlarmTime() from alarm time 0.
   */
  method NewDailyAlarm(name: Option<string>, w: Window, dedicated: bool, uuid: int, uuidText: string, now: int)
    returns (r: Result<AlarmEntry, AlarmError>)
    ensures CheckWindow(w).Fail? ==> r == Failure(InvalidParameter)
    ensures CheckWindow(w).Pass? ==> var next := DailyNext(w, 0, now);
      (r.Failure? <==> 0 < w.period && next.Failure?) &&
      (r.Failure? ==> r.error == RuntimeFault(next.error)) &&
      (r.Success? ==> (fresh(r.value) && r.value.schedule == Daily(w) && (r.value.isRepeating <==> 0 < w.period) &&
                       r.value.alarmTime == (if 0 < w.period && 0 < next.value then next.value else 0)))
  {
    var e := new AlarmEntry(uuid, uuidText, Daily(w));
    e.SetName(name);
    e.SetRingInDedicatedThread(dedicated);
    var check := CheckWindow(w);
    if check.Fail? {
      return Failure(check.error);
    }
    r := FirstUpdate(e, now);
  }

  /**
   * The embedded DailyAlarm a weekly or monthly alarm builds: only its constructor's
   * exceptions matter, as every nextAlarm overwrites its alarm time.
   */
  method EmbeddedDaily(w: Window, now: int) returns (r: Outcome<AlarmError>)
    ensures r.Pass? <==> CheckWindow(w).Pass? && (0 < w.period ==> DailyNext(w, 0, now).Success?)
    ensures CheckWindow(w).Fail? ==> r == Fail(InvalidParameter)
    ensures CheckWindow(w).Pass? && 0 < w.period && DailyNext(w, 0, now).Failure? ==>
      r == Fail(RuntimeFault(DailyNext(w, 0, now).error))
  {
    var check := CheckWindow(w);
    if check.Fail? {
      return check;
    }
    if 0 < w.period {
      var first := DailyAlarms.NextAlarm(w, 0, now);
      if first.Failure? {
        return Fail(RuntimeFault(first.error));
      }
    }
    return Pass;
  }

  /**
   * new WeeklyAlarm(name, days, start, end, period, ...): the days sorted, those over 7 dropped,
   * {-1} when none is left; then the embedded daily alarm; then updateAlarmTime().
   */
  method NewWeeklyAlarm(name: Option<string>, days: seq<int>, w: Window, dedicated: bool,
                        uuid: int, uuidText: string, now: int)
    returns (r: Result<AlarmEntry, AlarmError>)
    ensures var stored := NormalizedDays(days, MaxDayOfWeek);
      var daily := CheckWindow(w).Pass? && (0 < w.period ==> DailyNext(w, 0, now).Success?);
      var next := WeeklyAlarms.WeeklyNext(w, stored, 0, now);
      (r.Success? <==> daily && next.Success?) &&
      (r.Success? ==> (fresh(r.value) && r.value.schedule == Weekly(w, stored) && r.value.isRepeating &&
                       r.value.alarmTime == (if 0 < next.value then next.value else 0)))
  {
    var stored := NormalizeDays(days, MaxDayOfWeek);
    var e := new AlarmEntry(uuid, uuidText, Weekly(w, stored));
    e.SetName(name);
    e.SetRingInDedicatedThread(dedicated);
    var daily := EmbeddedDaily(w, now);
    if daily.Fail? {
      return Failure(daily.error);
    }
    r := FirstUpdate(e, now);
  }

  /**
   * new MonthlyAlarm(name, days, start, end, period, ...): the days sorted, those over 32
   * dropped, {-1} when none is left; then the embedded daily alarm; then updateAlarmTime().
   */
  method NewMonthlyAlarm(name: Option<string>, days: seq<int>, w: Window, dedicated: bool,
                         uuid: int, uuidText: string, now: int)
    returns (r: Result<AlarmEntry, AlarmError>)
    ensures var stored := NormalizedDays(days, LastDayOfMonth);
      var daily := CheckWindow(w).Pass? && (0 < w.period ==> DailyNext(w, 0, now).Success?);
      var next := MonthlyAlarms.MonthlyNext(w, stored, 0, now);
      (r.Success? <==> daily && next.Success?) &&
      (r.Success? ==> (fresh(r.value) && r.value.schedule == Monthly(w, stored) && r.value.isRepeating &&
                       r.value.alarmTime == (if 0 < next.value then next.value else 0)))
  {
    var stored := NormalizeDays(days, LastDayOfMonth);
    var e := new AlarmEntry(uuid, uuidText, Monthly(w, stored));
    e.SetName(name);
    e.SetRingInDedicatedThread(dedicated);
    var daily := EmbeddedDaily(w, now);
    if daily.Fail? {
      return Failure(daily.error);
    }
    r := FirstUpdate(e, now);
  }

  /**
   * new CronAlarm(name, cronEntry, ...): the five lists of cronEntry copied, then
   * updateAlarmTime() from alarm time 0.
   */
  method NewCronAlarm(name: Option<string>, entry: CronParameters.CronParameter, dedicated: bool,
                      uuid: int, uuidText: string, now: int)
    returns (r: Result<AlarmEntry, AlarmError>)
    ensures var next := CronAlarms.CronNext(entry.Fields(), 0, now);
      (r.Success? <==> next.Success?) &&
      (r.Failure? ==> r.error == RuntimeFault(next.error)) &&
      (r.Success? ==> (fresh(r.value) && r.value.schedule == Cron(entry.Fields()) && r.value.isRepeating &&
                       r.value.alarmTime == (if 0 < next.value then next.value else 0)))
  {
    var e := new AlarmEntry(uuid, uuidText, Cron(entry.Fields()));
    e.SetName(name);
    e.SetRingInDedicatedThread(dedicated);
    r := FirstUpdate(e, now);
  }

  /** new CronAlarm(name, pattern, ...): InvalidParameterException when the pattern does not parse. */
  method NewCronAlarmFromPattern(name: Option<string>, pattern: string, dedicated: bool,
                                 uuid: int, uuidText: string, now: int)
    returns (r: Result<AlarmEntry, AlarmError>)
    ensures SchedulingPatterns.CronPattern(pattern).Failure? ==> r == Failure(InvalidParameter)
    ensures SchedulingPatterns.CronPattern(pattern).Success? ==>
      var f := SchedulingPatterns.CronPattern(pattern).value;
      var next := CronAlarms.CronNext(f, 0, now);
      (r.Success? <==> next.Success?) &&
      (r.Success? ==> fresh(r.value) && r.value.schedule == Cron(f))
  {
    var parsed := SchedulingPatterns.ParseCron(pattern);
    if parsed.Failure? {
      return Failure(parsed.error);
    }
    r := NewCronAlarm(name, parsed.value, dedicated, uuid, uuidText, now);
  }
}
