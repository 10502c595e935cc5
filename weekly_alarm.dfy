/**
 * WeeklyAlarm: a daily window that rings only on the listed days of the week
 * (1 = Sunday .. 7 = Saturday; a leading -1 means every day).
 */
module WeeklyAlarms {
  import opened Wrappers
  import opened GregorianCalendar
  import opened AlarmUtils
  import opened TimeOfDays
  import opened DailyAlarms

  /** The days the constructor keeps: sorted, values over 7 dropped, [-1] when nothing is left. */
  function StoredDays(days: seq<int>): (r: seq<int>)
    ensures 0 < |r| && Ascending(r) && AtMost(r, MaxDayOfWeek)
    ensures r == [Any] || forall v :: v in r <==> v in days && v <= MaxDayOfWeek
  {
    NormalizedDaysContents(days, MaxDayOfWeek);
    NormalizedDays(days, MaxDayOfWeek)
  }

  /** A day list on which updateDayOfWeek always ends: the wildcard, or days 1..7 in order. */
  predicate WellFormed(days: seq<int>)
  {
    0 < |days| && Ascending(days) && AtMost(days, MaxDayOfWeek) &&
    (IsWildcard(days) || AtLeast(days, MinDayOfWeek))
  }

  /** Each of the seven days of the week can be visited at most once by a loop that ends. */
  const DaySearchBound: nat := 7

  /**
   * updateDayOfWeek as a value: while the day of the week is not listed, move forward by
   * getOffsetToNextOrEqual days; given up after seven moves.
   */
  function DaySearch(days: seq<int>, t: int, n: nat): Result<int, Fault>
    requires n <= DaySearchBound
    decreases DaySearchBound - n
  {
    if IsIn(DayOfWeek(t), days) then Success(t)
    else if n == DaySearchBound then Failure(Diverges)
    else
      var off :- OffsetToNextOrEqual(DayOfWeek(t), MinDayOfWeek, MaxDayOfWeek, days);
      DaySearch(days, AddDays(t, off), n + 1)
  }

  /** Whatever the list, a search that ends lands on a listed day at the same time of day. */
  lemma {:induction false} DaySearchLands(days: seq<int>, t: int, n: nat)
    requires n <= DaySearchBound
    ensures var r := DaySearch(days, t, n);
      r.Success? ==> IsIn(DayOfWeek(r.value), days) && MillisOfDay(r.value) == MillisOfDay(t)
    decreases DaySearchBound - n
  {
    if !IsIn(DayOfWeek(t), days) && n < DaySearchBound {
      var off := OffsetToNextOrEqual(DayOfWeek(t), MinDayOfWeek, MaxDayOfWeek, days);
      if off.Success? {
        DaySearchLands(days, AddDays(t, off.value), n + 1);
        AddDaysFields(t, off.value);
      }
    }
  }

  /** For a day within a week of a day d, its day of the week is d's advanced cyclically. */
  lemma AdvanceDayOfWeek(t: int, j: int)
    requires 0 <= j < 7
    ensures DayOfWeek(AddDays(t, j)) == Advance(DayOfWeek(t), j, MinDayOfWeek, MaxDayOfWeek)
  {
    AddDaysDayOfWeek(t, j);
  }

  /**
   * On a well-formed list, the search takes at most one move and finds the first listed day
   * of the week on or after t's day, at most six days later, at the same time of day.
   */
  lemma DaySearchFindsFirst(days: seq<int>, t: int, n: nat)
    requires WellFormed(days) && n < DaySearchBound
    ensures var r := DaySearch(days, t, n);
      r.Success? && Day(t) <= Day(r.value) <= Day(t) + 6 && MillisOfDay(r.value) == MillisOfDay(t) &&
      IsIn(DayOfWeek(r.value), days) &&
      forall j | 0 <= j < Day(r.value) - Day(t) :: !IsIn(DayOfWeek(AddDays(t, j)), days)
  {
    var dow := DayOfWeek(t);
    if !IsIn(dow, days) {
      OffsetToNextOrEqualIsNext(dow, MinDayOfWeek, MaxDayOfWeek, days);
      var off := OffsetToNextOrEqual(dow, MinDayOfWeek, MaxDayOfWeek, days).value;
      var u := AddDays(t, off);
      AdvanceDayOfWeek(t, off);
      AddDaysFields(t, off);
      assert DaySearch(days, t, n) == DaySearch(days, u, n + 1) == Success(u);
      forall j | 0 <= j < off
        ensures !IsIn(DayOfWeek(AddDays(t, j)), days)
      {
        AdvanceDayOfWeek(t, j);
      }
    }
  }

  /** updateDayOfWeek: the loop, with the seven-move bound reported as a loop that never ends. */
  method UpdateDayOfWeek(days: seq<int>, t: int) returns (r: Result<int, Fault>)
    ensures r == DaySearch(days, t, 0)
  {
    var current := t;
    var n: nat := 0;
    while !IsIn(DayOfWeek(current), days)
      invariant n <= DaySearchBound
      invariant DaySearch(days, current, n) == DaySearch(days, t, 0)
      decreases DaySearchBound - n
    {
      if n == DaySearchBound {
        return Failure(Diverges);
      }
      var off :- OffsetToNextOrEqual(DayOfWeek(current), MinDayOfWeek, MaxDayOfWeek, days);
      current := AddDays(current, off);
      n := n + 1;
    }
    return Success(current);
  }

  /**
   * The second half of nextAlarm: an instant on a listed day stays; otherwise the alarm
   * moves to the window's start on the first listed day after it.
   */
  function MoveToListedDay(w: Window, days: seq<int>, d: int): Result<int, Fault>
  {
    if IsIn(DayOfWeek(d), days) then Success(d)
    else
      var t :- DaySearch(days, AddDays(d, 1), 0);
      Success(AtTime(t, w.start))
  }

  /** What nextAlarm computes: the embedded daily alarm's updated time, moved to a listed day. */
  function WeeklyNext(w: Window, days: seq<int>, alarmTime: int, now: int): Result<int, Fault>
  {
    var d :- UpdatedAlarmTime(w, alarmTime, now);
    MoveToListedDay(w, days, d)
  }

  /** nextAlarm of a WeeklyAlarm, with `now` the clock reading. */
  method NextAlarm(w: Window, days: seq<int>, alarmTime: int, now: int) returns (r: Result<int, Fault>)
    ensures r == WeeklyNext(w, days, alarmTime, now)
  {
    var d :- DailyAlarms.NextAlarm(w, alarmTime, now);
    if d <= 0 {
      d := alarmTime;
    }
    if IsIn(DayOfWeek(d), days) {
      return Success(d);
    }
    var t :- UpdateDayOfWeek(days, AddDays(d, 1));
    return Success(AtTime(t, w.start));
  }

  /** With a valid start time, the move always ends on a listed day of the week. */
  lemma MoveLandsOnListedDay(w: Window, days: seq<int>, d: int)
    requires Valid(w.start)
    ensures var r := MoveToListedDay(w, days, d);
      r.Success? ==> IsIn(DayOfWeek(r.value), days)
  {
    if !IsIn(DayOfWeek(d), days) {
      var u := AddDays(d, 1);
      var s := DaySearch(days, u, 0);
      DaySearchLands(days, u, 0);
      if s.Success? {
        AtTimeFields(s.value, w.start);
        SameDaySameWeekday(AtTime(s.value, w.start), s.value);
      }
    }
  }

  lemma SameDaySameWeekday(a: int, b: int)
    requires Day(a) == Day(b)
    ensures DayOfWeek(a) == DayOfWeek(b)
  {
  }

  /**
   * On a well-formed day list the move cannot fail: an instant on a listed day stays, any
   * other goes to the window's start on the first listed day after it, within a week.
   */
  lemma MoveFindsFirstListedDay(w: Window, days: seq<int>, d: int)
    requires WellFormed(days) && Valid(w.start)
    ensures var r := MoveToListedDay(w, days, d);
      r.Success? &&
      ((r.value == d && IsIn(DayOfWeek(d), days)) ||
       (TimeOfDayAt(r.value) == w.start && Day(d) < Day(r.value) <= Day(d) + 7 &&
        forall j | 0 <= j < Day(r.value) - Day(d) :: !IsIn(DayOfWeek(AddDays(d, j)), days)))
  {
    if !IsIn(DayOfWeek(d), days) {
      var u := AddDays(d, 1);
      DaySearchFindsFirst(days, u, 0);
      var t := DaySearch(days, u, 0).value;
      AtTimeFields(t, w.start);
      AddDaysFields(d, 1);
      forall j | 0 <= j < Day(t) - Day(d)
        ensures !IsIn(DayOfWeek(AddDays(d, j)), days)
      {
        if 0 < j {
          assert 0 <= j - 1 < Day(t) - Day(u);
          assert !IsIn(DayOfWeek(AddDays(u, j - 1)), days);
          assert AddDays(d, j) == AddDays(u, j - 1);
        }
      }
    }
  }

  /** With a valid start time, every next alarm falls on a listed day of the week. */
  lemma WeeklyNextOnListedDay(w: Window, days: seq<int>, alarmTime: int, now: int)
    requires Valid(w.start)
    ensures var r := WeeklyNext(w, days, alarmTime, now);
      r.Success? ==> IsIn(DayOfWeek(r.value), days)
  {
    var d := UpdatedAlarmTime(w, alarmTime, now);
    if d.Success? {
      MoveLandsOnListedDay(w, days, d.value);
    }
  }

  /**
   * On a well-formed day list only the embedded daily alarm can fail; otherwise the next
   * alarm is the daily alarm's time on a listed day, or the window's start on the first
   * listed day after it, within a week.
   */
  lemma WeeklyNextFirstListedDay(w: Window, days: seq<int>, alarmTime: int, now: int)
    requires WellFormed(days) && Valid(w.start)
    ensures var r := WeeklyNext(w, days, alarmTime, now);
      var d := UpdatedAlarmTime(w, alarmTime, now);
      (r.Failure? <==> d.Failure?) &&
      (r.Success? ==> r == MoveToListedDay(w, days, d.value))
  {
    var d := UpdatedAlarmTime(w, alarmTime, now);
    if d.Success? {
      MoveFindsFirstListedDay(w, days, d.value);
    }
  }
}
