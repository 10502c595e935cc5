/**
 * MonthlyAlarm: a daily window that rings only on the listed days of the month
 * (1..31, with 32 standing for the month's last day; a leading -1 means every day).
 */
module MonthlyAlarms {
  import opened Wrappers
  import opened GregorianCalendar
  import opened AlarmUtils
  import opened TimeOfDays
  import opened DailyAlarms

  /** The days the constructor keeps: sorted, values over 32 dropped, [-1] when nothing is left. */
  function StoredDays(days: seq<int>): (r: seq<int>)
    ensures 0 < |r| && Ascending(r) && AtMost(r, LastDayOfMonth)
    ensures r == [Any] || forall v :: v in r <==> v in days && v <= LastDayOfMonth
  {
    NormalizedDaysContents(days, LastDayOfMonth);
    NormalizedDays(days, LastDayOfMonth)
  }

  /** getDaysOfMonth for the month of t: the list with 32 replaced by that month's length. */
  function LocalDays(days: seq<int>, t: int): seq<int>
  {
    LastDaySubstituted(days, ActualMaximumDayOfMonth(t))
  }

  /** A bound on the moves of updateDayOfMonth: a year of days. */
  const DaySearchBound: nat := 366

  /**
   * updateDayOfMonth as a value: while the day of the month is not in the month's list, move
   * forward by getOffsetToNextOrEqual days within the month's range; given up after 366 moves.
   */
  function DaySearch(days: seq<int>, t: int, n: nat): Result<int, Fault>
    requires n <= DaySearchBound
    decreases DaySearchBound - n
  {
    if IsIn(DayOfMonth(t), LocalDays(days, t)) then Success(t)
    else if n == DaySearchBound then Failure(Diverges)
    else
      var u :- DayMove(days, t);
      DaySearch(days, u, n + 1)
  }

  /** One move of updateDayOfMonth: forward by getOffsetToNextOrEqual days within the month's range. */
  function DayMove(days: seq<int>, t: int): Result<int, Fault>
  {
    var off :- OffsetToNextOrEqual(DayOfMonth(t), MinDayOfMonth, ActualMaximumDayOfMonth(t), LocalDays(days, t));
    Success(AddDays(t, off))
  }

  /**
   * Whatever the list, a search that ends lands on a day the three-argument isIn accepts for
   * its month, at the same time of day.
   */
  lemma {:induction false} DaySearchLands(days: seq<int>, t: int, n: nat)
    requires n <= DaySearchBound
    ensures var r := DaySearch(days, t, n);
      r.Success? ==>
        IsInDay(DayOfMonth(r.value), days, ActualMaximumDayOfMonth(r.value)) &&
        MillisOfDay(r.value) == MillisOfDay(t)
    decreases DaySearchBound - n
  {
    var local := LocalDays(days, t);
    if IsIn(DayOfMonth(t), local) {
      SubstitutedMembership(DayOfMonth(t), days, ActualMaximumDayOfMonth(t));
    } else if n < DaySearchBound {
      var off := OffsetToNextOrEqual(DayOfMonth(t), MinDayOfMonth, ActualMaximumDayOfMonth(t), local);
      if off.Success? {
        DaySearchLands(days, AddDays(t, off.value), n + 1);
        AddDaysFields(t, off.value);
      }
    }
  }

  /** Without 32 in the list, the month's list is the list itself. */
  lemma NoLastDayUnchanged(days: seq<int>, t: int)
    requires LastDayOfMonth !in days
    ensures LocalDays(days, t) == days
  {
    var local := LocalDays(days, t);
    forall i | 0 <= i < |days|
      ensures local[i] == days[i]
    {
      assert days[i] != LastDayOfMonth;
    }
  }

  /** No listed day in lo..hi-1. */
  predicate NoneListedBetween(days: seq<int>, lo: int, hi: int)
  {
    forall i | 0 <= i < |days| :: days[i] < lo || hi <= days[i]
  }

  /**
   * For an ascending list of real days (1..31, no 32) with a listed day v still to come in
   * the current month, the search stays in the month and stops at the first listed day on
   * or after the current one.
   */
  lemma {:induction false} DaySearchWithinMonth(days: seq<int>, t: int, n: nat, v: int) returns (off: int)
    requires Ascending(days) && AtLeast(days, MinDayOfMonth) && LastDayOfMonth !in days
    requires n < DaySearchBound
    requires v in days && DayOfMonth(t) <= v <= ActualMaximumDayOfMonth(t)
    ensures DaySearch(days, t, n) == Success(AddDays(t, off))
    ensures 0 <= off <= v - DayOfMonth(t)
    ensures DateAt(AddDays(t, off)) == Date(Year(t), Month(t), DayOfMonth(t) + off)
    ensures DayOfMonth(t) + off in days && NoneListedBetween(days, DayOfMonth(t), DayOfMonth(t) + off)
  {
    off := FirstListedDay(days, DayOfMonth(t), ActualMaximumDayOfMonth(t), v);
    if off == 0 {
      SearchFromListedDay(days, t, n);
    } else {
      MoveWithinMonth(days, t, n, off);
    }
  }

  /** DaySearchWithinMonth from a day that is listed: no move at all. */
  lemma {:induction false} SearchFromListedDay(days: seq<int>, t: int, n: nat)
    requires LastDayOfMonth !in days && n < DaySearchBound && DayOfMonth(t) in days
    ensures DaySearch(days, t, n) == Success(AddDays(t, 0))
    ensures DateAt(AddDays(t, 0)) == Date(Year(t), Month(t), DayOfMonth(t))
  {
    DaySearchStopsOn(days, t, n, DayOfMonth(t));
    assert AddDays(t, 0) == t;
  }

  /**
   * The first listed day on or after cur: cur itself when listed, else where
   * getOffsetToNextOrEqual leads.
   */
  lemma FirstListedDay(days: seq<int>, cur: int, max: int, v: int) returns (off: int)
    requires Ascending(days) && AtLeast(days, MinDayOfMonth) && MinDayOfMonth <= cur
    requires v in days && cur <= v <= max
    ensures 0 <= off <= v - cur && cur + off in days && NoneListedBetween(days, cur, cur + off)
    ensures off != 0 ==> !IsIn(cur, days) && OffsetToNextOrEqual(cur, MinDayOfMonth, max, days) == Success(off)
  {
    off := 0;
    if cur !in days {
      off := FirstListedOffset(days, cur, max, v);
    }
  }

  /** The offset getOffsetToNextOrEqual gives from a day that is not listed, and where it lands. */
  lemma FirstListedOffset(days: seq<int>, cur: int, max: int, v: int) returns (off: int)
    requires Ascending(days) && AtLeast(days, MinDayOfMonth) && MinDayOfMonth <= cur
    requires cur !in days && v in days && cur <= v <= max
    ensures !IsIn(cur, days)
    ensures OffsetToNextOrEqual(cur, MinDayOfMonth, max, days) == Success(off)
    ensures 0 < off <= v - cur && cur + off in days
    ensures NoneListedBetween(days, cur, cur + off)
  {
    NotListedHere(days, cur);
    OrEqualWithinRange(cur, MinDayOfMonth, max, days, v);
    off := OffsetToNextOrEqual(cur, MinDayOfMonth, max, days).value;
  }

  lemma NotListedHere(days: seq<int>, cur: int)
    requires 0 < |days| && AtLeast(days, MinDayOfMonth) && cur !in days
    ensures !IsWildcard(days) && !IsIn(cur, days)
  {
    assert days[0] >= MinDayOfMonth;
  }

  /** One move of the search that stays in the month and reaches a listed day ends it. */
  lemma {:induction false} MoveWithinMonth(days: seq<int>, t: int, n: nat, off: int)
    requires LastDayOfMonth !in days && n < DaySearchBound && !IsIn(DayOfMonth(t), days)
    requires OffsetToNextOrEqual(DayOfMonth(t), MinDayOfMonth, ActualMaximumDayOfMonth(t), days) == Success(off)
    requires 0 <= off && DayOfMonth(t) + off <= ActualMaximumDayOfMonth(t) && DayOfMonth(t) + off in days
    ensures DaySearch(days, t, n) == Success(AddDays(t, off))
    ensures DateAt(AddDays(t, off)) == Date(Year(t), Month(t), DayOfMonth(t) + off)
  {
    var u := AddDays(t, off);
    NoLastDayUnchanged(days, t);
    AddDaysInMonth(t, off);
    DaySearchStep(days, t, n);
    DaySearchStopsOn(days, u, n + 1, DayOfMonth(t) + off);
  }

  /** The search stops at once on a listed day of a list without 32. */
  lemma {:induction false} DaySearchStopsOn(days: seq<int>, t: int, n: nat, x: int)
    requires n <= DaySearchBound && LastDayOfMonth !in days && x in days && DayOfMonth(t) == x
    ensures DaySearch(days, t, n) == Success(t)
  {
    NoLastDayUnchanged(days, t);
  }

  /** One unrolling of the search from a day that is not in the month's list. */
  lemma {:induction false} DaySearchStep(days: seq<int>, t: int, n: nat)
    requires n < DaySearchBound && !IsIn(DayOfMonth(t), LocalDays(days, t))
    requires OffsetToNextOrEqual(DayOfMonth(t), MinDayOfMonth, ActualMaximumDayOfMonth(t), LocalDays(days, t)).Success?
    ensures var off := OffsetToNextOrEqual(DayOfMonth(t), MinDayOfMonth, ActualMaximumDayOfMonth(t), LocalDays(days, t)).value;
      DaySearch(days, t, n) == DaySearch(days, AddDays(t, off), n + 1)
  {
  }

  /**
   * Day 31 in a shorter month: getOffsetToNextOrEqual drops every listed value as too large
   * and indexes an empty array.
   */
  lemma ThirtyFirstInShortMonth(t: int, n: nat)
    requires ActualMaximumDayOfMonth(t) < 31 && n < DaySearchBound
    ensures DaySearch([31], t, n) == Failure(IndexOutOfBounds)
  {
    NoLastDayUnchanged([31], t);
    assert Discarded([31], ActualMaximumDayOfMonth(t)) == [];
  }

  /**
   * "15,30,L" in a 28-day February after the 15th: 30 stops the scan for values within the
   * month, so the substituted last day is never seen and the search skips the 28th, which
   * isIn accepts, for the 15th of March.
   */
  lemma LastDaySkipped(t: int, n: nat)
    requires ActualMaximumDayOfMonth(t) == 28 && 15 < DayOfMonth(t) < 28 && n < DaySearchBound
    ensures IsInDay(28, [15, 30, LastDayOfMonth], 28)
    ensures var r := DaySearch([15, 30, LastDayOfMonth], t, n);
      r.Success? && DayOfMonth(r.value) == 15 && Month(r.value) == 2
  {
    var days := [15, 30, LastDayOfMonth];
    var local := LocalDays(days, t);
    assert local == [15, 30, 28];
    assert Discarded(local, 28) == [15];
    var off := (28 - DayOfMonth(t) + 1) + (15 - 1);
    assert OffsetToNextOrEqual(DayOfMonth(t), MinDayOfMonth, 28, local) == Success(off);
    AddDaysNextMonth(t, off);
    var u := AddDays(t, off);
    assert DayOfMonth(u) == 15;
    assert LocalDays(days, u)[0] == 15;
    assert DaySearch(days, t, n) == DaySearch(days, u, n + 1) == Success(u);
  }

  /** updateDayOfMonth: the loop, with the month's list recomputed whenever the month length changes. */
  method UpdateDayOfMonth(days: seq<int>, t: int) returns (r: Result<int, Fault>)
    ensures r == DaySearch(days, t, 0)
  {
    var alarm := t;
    var current := DayOfMonth(alarm);
    var maxDay := ActualMaximumDayOfMonth(alarm);
    var currentMax := maxDay;
    var local := GetDaysOfMonth(days, maxDay);
    var n: nat := 0;
    while !IsIn(current, local)
      invariant n <= DaySearchBound
      invariant current == DayOfMonth(alarm) && maxDay == ActualMaximumDayOfMonth(alarm) && currentMax == maxDay
      invariant local == LastDaySubstituted(days, maxDay)
      invariant DaySearch(days, alarm, n) == DaySearch(days, t, 0)
      decreases DaySearchBound - n
    {
      if n == DaySearchBound {
        return Failure(Diverges);
      }
      var next := MoveDay(days, alarm, current, maxDay, local);
      if next.Failure? {
        return Failure(next.error);
      }
      alarm := next.value;
      current := DayOfMonth(alarm);
      maxDay := ActualMaximumDayOfMonth(alarm);
      currentMax, local := RefreshDays(days, currentMax, maxDay, local);
      n := n + 1;
    }
    return Success(alarm);
  }

  /** The body of updateDayOfMonth's loop up to the move: the offset, then add(DAY_OF_MONTH, offset). */
  method MoveDay(days: seq<int>, alarm: int, current: int, maxDay: int, local: seq<int>) returns (r: Result<int, Fault>)
    requires current == DayOfMonth(alarm) && maxDay == ActualMaximumDayOfMonth(alarm)
    requires local == LastDaySubstituted(days, maxDay)
    ensures r == DayMove(days, alarm)
  {
    var offset :- OffsetToNextOrEqual(current, MinDayOfMonth, maxDay, local);
    return Success(AddDays(alarm, offset));
  }

  /** The list for the new month, recomputed only when the month length changed. */
  method RefreshDays(days: seq<int>, currentMax: int, maxDay: int, local: seq<int>) returns (max': int, local': seq<int>)
    requires local == LastDaySubstituted(days, currentMax)
    ensures max' == maxDay && local' == LastDaySubstituted(days, maxDay)
  {
    max', local' := currentMax, local;
    if currentMax != maxDay {
      max' := maxDay;
      local' := GetDaysOfMonth(days, maxDay);
    }
  }

  /**
   * The second half of nextAlarm: an instant on an accepted day stays; otherwise the alarm
   * moves to the window's start on the next accepted day after it.
   */
  function MoveToListedDay(w: Window, days: seq<int>, d: int): Result<int, Fault>
  {
    if IsInDay(DayOfMonth(d), days, ActualMaximumDayOfMonth(d)) then Success(d)
    else
      var t :- DaySearch(days, AddDays(d, 1), 0);
      Success(AtTime(t, w.start))
  }

  /** What nextAlarm computes: the embedded daily alarm's updated time, moved to an accepted day. */
  function MonthlyNext(w: Window, days: seq<int>, alarmTime: int, now: int): Result<int, Fault>
  {
    var d :- UpdatedAlarmTime(w, alarmTime, now);
    MoveToListedDay(w, days, d)
  }

  /** nextAlarm of a MonthlyAlarm, with `now` the clock reading. */
  method NextAlarm(w: Window, days: seq<int>, alarmTime: int, now: int) returns (r: Result<int, Fault>)
    ensures r == MonthlyNext(w, days, alarmTime, now)
  {
    var d :- DailyAlarms.NextAlarm(w, alarmTime, now);
    if d <= 0 {
      d := alarmTime;
    }
    if IsInDay(DayOfMonth(d), days, ActualMaximumDayOfMonth(d)) {
      return Success(d);
    }
    var t :- UpdateDayOfMonth(days, AddDays(d, 1));
    return Success(AtTime(t, w.start));
  }

  /** With a valid start time, the move always ends on a day isIn accepts for its month. */
  lemma MoveLandsOnListedDay(w: Window, days: seq<int>, d: int)
    requires Valid(w.start)
    ensures var r := MoveToListedDay(w, days, d);
      r.Success? ==> IsInDay(DayOfMonth(r.value), days, ActualMaximumDayOfMonth(r.value))
  {
    if !IsInDay(DayOfMonth(d), days, ActualMaximumDayOfMonth(d)) {
      var s := DaySearch(days, AddDays(d, 1), 0);
      DaySearchLands(days, AddDays(d, 1), 0);
      if s.Success? {
        AtTimeFields(s.value, w.start);
      }
    }
  }

  /** With a valid start time, every next alarm falls on a day isIn accepts for its month. */
  lemma MonthlyNextOnListedDay(w: Window, days: seq<int>, alarmTime: int, now: int)
    requires Valid(w.start)
    ensures var r := MonthlyNext(w, days, alarmTime, now);
      r.Success? ==> IsInDay(DayOfMonth(r.value), days, ActualMaximumDayOfMonth(r.value))
  {
    var d := UpdatedAlarmTime(w, alarmTime, now);
    if d.Success? {
      MoveLandsOnListedDay(w, days, d.value);
    }
  }
}
