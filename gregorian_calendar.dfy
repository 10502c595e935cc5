/**
 * A java.util.GregorianCalendar in UTC, reduced to what the alarms use. An instant is a
 * number of milliseconds since 1 January 1970 00:00:00.000; fields are derived from it, and
 * `set`/`add` produce a new instant. Month numbers run 0..11 and days of the week 1 (Sunday)
 * .. 7 (Saturday), as in java.util.Calendar. Setting a field is lenient: out-of-range values
 * roll over into the neighbouring unit.
 */
module GregorianCalendar {

  const MillisPerSecond: int := 1000
  const MillisPerMinute: int := 60_000
  const MillisPerHour: int := 3_600_000
  const MillisPerDay: int := 86_400_000
  const EpochYear: int := 1970

  // ---------------------------------------------------------------- arithmetic helpers

  /** Euclidean division is determined by the quotient and remainder. */
  lemma DivMod(q: int, r: int, b: int)
    requires 0 < b && 0 <= r < b
    ensures (q * b + r) / b == q && (q * b + r) % b == r
  {
    var a := q * b + r;
    var q', r' := a / b, a % b;
    assert a == q' * b + r' && 0 <= r' < b;
    assert (q' - q) * b == r - r';
    if q' > q {
      MulAtLeast(q' - q, b);
      assert false;
    } else if q' < q {
      MulAtLeast(q - q', b);
      assert false;
    }
  }

  lemma MulAtLeast(x: int, b: int)
    requires 1 <= x && 0 < b
    ensures b <= x * b
  {
  }

  // ---------------------------------------------------------------- years and months

  predicate IsLeap(y: int)
  {
    y % 4 == 0 && (y % 100 != 0 || y % 400 == 0)
  }

  function YearLength(y: int): int
  {
    if IsLeap(y) then 366 else 365
  }

  /** getActualMaximum(DAY_OF_MONTH) for month m (0 = January) of year y. */
  function MonthLength(y: int, m: int): (n: int)
    requires 0 <= m < 12
    ensures 28 <= n <= 31
    ensures n == 29 <==> m == 1 && IsLeap(y)
  {
    if m == 1 then (if IsLeap(y) then 29 else 28)
    else if m == 3 || m == 5 || m == 8 || m == 10 then 30
    else 31
  }

  /** Days from 1 January 1970 to 1 January of year y (negative before 1970). */
  function DaysBeforeYear(y: int): int
    decreases if y >= EpochYear then y - EpochYear else EpochYear - y
  {
    if y == EpochYear then 0
    else if y > EpochYear then DaysBeforeYear(y - 1) + YearLength(y - 1)
    else DaysBeforeYear(y + 1) - YearLength(y)
  }

  lemma DaysBeforeNextYear(y: int)
    ensures DaysBeforeYear(y + 1) == DaysBeforeYear(y) + YearLength(y)
  {
  }

  lemma {:induction false} DaysBeforeYearMonotone(a: int, b: int)
    requires a < b
    ensures DaysBeforeYear(a) + YearLength(a) <= DaysBeforeYear(b)
    decreases b - a
  {
    DaysBeforeNextYear(a);
    if a + 1 < b {
      DaysBeforeYearMonotone(a + 1, b);
    }
  }

  /** Days from 1 January of year y to the first day of month m (m == 12: the whole year). */
  function DaysBeforeMonth(y: int, m: int): (n: int)
    requires 0 <= m <= 12
    ensures 0 <= n <= YearLength(y)
    ensures m == 12 <==> n == YearLength(y)
  {
    var common :=
      if m == 0 then 0 else if m == 1 then 31 else if m == 2 then 59 else if m == 3 then 90
      else if m == 4 then 120 else if m == 5 then 151 else if m == 6 then 181
      else if m == 7 then 212 else if m == 8 then 243 else if m == 9 then 273
      else if m == 10 then 304 else if m == 11 then 334 else 365;
    if m >= 2 && IsLeap(y) then common + 1 else common
  }

  lemma DaysBeforeNextMonth(y: int, m: int)
    requires 0 <= m < 12
    ensures DaysBeforeMonth(y, m + 1) == DaysBeforeMonth(y, m) + MonthLength(y, m)
  {
  }

  lemma {:induction false} DaysBeforeMonthMonotone(y: int, a: int, b: int)
    requires 0 <= a < b <= 12
    ensures DaysBeforeMonth(y, a) + MonthLength(y, a) <= DaysBeforeMonth(y, b)
    decreases b - a
  {
    DaysBeforeNextMonth(y, a);
    if a + 1 < b {
      DaysBeforeNextMonth(y, a + 1);
      DaysBeforeMonthMonotone(y, a + 1, b);
    }
  }

  // ---------------------------------------------------------------- dates

  datatype Date = Date(year: int, month: int, day: int)

  predicate ValidDate(d: Date)
  {
    0 <= d.month < 12 && 1 <= d.day <= MonthLength(d.year, d.month)
  }

  /** Days since 1 January 1970 of day d of month m of year y; a day past the month's end rolls over. */
  function EpochDay(y: int, m: int, d: int): int
    requires 0 <= m < 12
  {
    DaysBeforeYear(y) + DaysBeforeMonth(y, m) + d - 1
  }

  function YearUp(y: int, k: int): (r: int)
    requires DaysBeforeYear(y) <= k
    ensures DaysBeforeYear(r) <= k < DaysBeforeYear(r) + YearLength(r)
    decreases k - DaysBeforeYear(y)
  {
    DaysBeforeNextYear(y);
    if k < DaysBeforeYear(y) + YearLength(y) then y else YearUp(y + 1, k)
  }

  function YearDown(y: int, k: int): (r: int)
    requires k < DaysBeforeYear(y) + YearLength(y)
    ensures DaysBeforeYear(r) <= k < DaysBeforeYear(r) + YearLength(r)
    decreases DaysBeforeYear(y) - k
  {
    DaysBeforeNextYear(y - 1);
    if DaysBeforeYear(y) <= k then y else YearDown(y - 1, k)
  }

  /** The year containing day k (days since 1 January 1970). */
  function YearOfDay(k: int): (y: int)
    ensures DaysBeforeYear(y) <= k < DaysBeforeYear(y) + YearLength(y)
  {
    if k >= 0 then YearUp(EpochYear, k) else YearDown(EpochYear - 1, k)
  }

  function MonthFrom(y: int, m: int, doy: int): (r: int)
    requires 0 <= m < 12 && DaysBeforeMonth(y, m) <= doy < YearLength(y)
    ensures m <= r < 12 && DaysBeforeMonth(y, r) <= doy < DaysBeforeMonth(y, r) + MonthLength(y, r)
    decreases 12 - m
  {
    DaysBeforeNextMonth(y, m);
    if doy < DaysBeforeMonth(y, m + 1) then m else MonthFrom(y, m + 1, doy)
  }

  /** The calendar date of day k (days since 1 January 1970). */
  function DateOf(k: int): (d: Date)
    ensures ValidDate(d) && EpochDay(d.year, d.month, d.day) == k
  {
    var y := YearOfDay(k);
    var doy := k - DaysBeforeYear(y);
    var m := MonthFrom(y, 0, doy);
    Date(y, m, doy - DaysBeforeMonth(y, m) + 1)
  }

  /** Numbering the days is one-to-one on valid dates, so DateOf inverts EpochDay. */
  lemma DateOfEpochDay(d: Date)
    requires ValidDate(d)
    ensures DateOf(EpochDay(d.year, d.month, d.day)) == d
  {
    var k := EpochDay(d.year, d.month, d.day);
    var e := DateOf(k);
    if d.month < 11 {
      DaysBeforeMonthMonotone(d.year, d.month, 12);
    }
    if e.month < 11 {
      DaysBeforeMonthMonotone(e.year, e.month, 12);
    }
    if e.year < d.year {
      DaysBeforeYearMonotone(e.year, d.year);
    } else if d.year < e.year {
      DaysBeforeYearMonotone(d.year, e.year);
    }
    assert e.year == d.year;
    if e.month < d.month {
      DaysBeforeMonthMonotone(d.year, e.month, d.month);
    } else if d.month < e.month {
      DaysBeforeMonthMonotone(d.year, d.month, e.month);
    }
  }

  // ---------------------------------------------------------------- fields of an instant

  /** Days since 1 January 1970 of instant t (flooring, also before 1970). */
  function Day(t: int): int { t / MillisPerDay }

  function MillisOfDay(t: int): (ms: int)
    ensures 0 <= ms < MillisPerDay
  {
    t % MillisPerDay
  }

  function DateAt(t: int): (d: Date)
    ensures ValidDate(d)
  {
    DateOf(Day(t))
  }

  function Year(t: int): int { DateAt(t).year }

  /** get(MONTH): 0 = January. */
  function Month(t: int): (m: int)
    ensures 0 <= m < 12
  {
    DateAt(t).month
  }

  /** get(DAY_OF_MONTH). */
  function DayOfMonth(t: int): (d: int)
    ensures 1 <= d <= MonthLength(Year(t), Month(t))
  {
    DateAt(t).day
  }

  /** get(DAY_OF_YEAR): 1 for the first of January. */
  function DayOfYear(t: int): (d: int)
    ensures 1 <= d <= YearLength(Year(t))
  {
    Day(t) - DaysBeforeYear(Year(t)) + 1
  }

  /** get(DAY_OF_WEEK): 1 = Sunday .. 7 = Saturday (1 January 1970 was a Thursday). */
  function DayOfWeek(t: int): (w: int)
    ensures 1 <= w <= 7
  {
    (Day(t) + 4) % 7 + 1
  }

  /** getActualMaximum(DAY_OF_MONTH). */
  function ActualMaximumDayOfMonth(t: int): (n: int)
    ensures 28 <= n <= 31
  {
    MonthLength(Year(t), Month(t))
  }

  function HourOfDay(t: int): (h: int)
    ensures 0 <= h < 24
  {
    MillisOfDay(t) / MillisPerHour
  }

  function Minute(t: int): (m: int)
    ensures 0 <= m < 60
  {
    MillisOfDay(t) / MillisPerMinute % 60
  }

  function Second(t: int): (s: int)
    ensures 0 <= s < 60
  {
    MillisOfDay(t) / MillisPerSecond % 60
  }

  function Millisecond(t: int): (ms: int)
    ensures 0 <= ms < 1000
  {
    MillisOfDay(t) % MillisPerSecond
  }

  // ---------------------------------------------------------------- set and add

  /** add(MINUTE, n). */
  function AddMinutes(t: int, n: int): int { t + n * MillisPerMinute }

  /** add(HOUR_OF_DAY, n). */
  function AddHours(t: int, n: int): int { t + n * MillisPerHour }

  /** add(DAY_OF_YEAR, n) and add(DAY_OF_MONTH, n): whole days, time of day kept. */
  function AddDays(t: int, n: int): int { t + n * MillisPerDay }

  /**
   * add(MONTH, n): the month moves by n (carrying into the year), the day of the month is
   * pinned to the new month's last day when it would not exist, the time of day is kept.
   */
  function AddMonths(t: int, n: int): int
  {
    var r := MonthsLater(DateAt(t), n);
    EpochDay(r.year, r.month, r.day) * MillisPerDay + MillisOfDay(t)
  }

  /** The date n months after d, its day cut down to the new month's length. */
  function MonthsLater(d: Date, n: int): (r: Date)
    requires ValidDate(d)
    ensures ValidDate(r)
  {
    var total := d.year * 12 + d.month + n;
    var y, m := total / 12, total % 12;
    Date(y, m, if d.day <= MonthLength(y, m) then d.day else MonthLength(y, m))
  }

  /** set(DAY_OF_MONTH, d), lenient. */
  function SetDayOfMonth(t: int, d: int): int { t + (d - DayOfMonth(t)) * MillisPerDay }

  /** set(SECOND, s), lenient. */
  function SetSecond(t: int, s: int): int { t + (s - Second(t)) * MillisPerSecond }

  /** set(MILLISECOND, ms), lenient. */
  function SetMillisecond(t: int, ms: int): int { t + (ms - Millisecond(t)) }

  /** set(HOUR_OF_DAY, h), set(MINUTE, m), set(SECOND, s), set(MILLISECOND, ms) in a row, lenient. */
  function SetTimeOfDay(t: int, h: int, m: int, s: int, ms: int): int
  {
    Day(t) * MillisPerDay + h * MillisPerHour + m * MillisPerMinute + s * MillisPerSecond + ms
  }

  /** set(YEAR, y), lenient: 29 February of a common year becomes 1 March. */
  function SetYear(t: int, y: int): int
  {
    EpochDay(y, Month(t), DayOfMonth(t)) * MillisPerDay + MillisOfDay(t)
  }

  /** set(DAY_OF_YEAR, d), lenient. */
  function SetDayOfYear(t: int, d: int): int
  {
    (DaysBeforeYear(Year(t)) + d - 1) * MillisPerDay + MillisOfDay(t)
  }

  // ---------------------------------------------------------------- laws

  /** An instant is its day plus its time of day. */
  lemma DaySplit(t: int)
    ensures t == Day(t) * MillisPerDay + MillisOfDay(t)
  {
  }

  lemma DayOfInstant(k: int, ms: int)
    requires 0 <= ms < MillisPerDay
    ensures Day(k * MillisPerDay + ms) == k && MillisOfDay(k * MillisPerDay + ms) == ms
  {
    DivMod(k, ms, MillisPerDay);
  }

  /** Adding whole days moves the day number and keeps the time of day. */
  lemma AddDaysFields(t: int, n: int)
    ensures Day(AddDays(t, n)) == Day(t) + n
    ensures MillisOfDay(AddDays(t, n)) == MillisOfDay(t)
  {
    DayOfInstant(Day(t) + n, MillisOfDay(t));
    assert AddDays(t, n) == (Day(t) + n) * MillisPerDay + MillisOfDay(t);
  }

  /** The day of the week advances cyclically with the days. */
  lemma AddDaysDayOfWeek(t: int, n: int)
    ensures DayOfWeek(AddDays(t, n)) == (DayOfWeek(t) - 1 + n) % 7 + 1
  {
    AddDaysFields(t, n);
    var k := Day(t) + 4;
    DivMod(k / 7, k % 7, 7);
    DivMod(k / 7 + (k % 7 + n) / 7, (k % 7 + n) % 7, 7);
    assert k + n == (k / 7 + (k % 7 + n) / 7) * 7 + (k % 7 + n) % 7;
  }

  /** The date fields of an instant built from a valid date. */
  lemma FieldsAtDate(d: Date, ms: int)
    requires ValidDate(d) && 0 <= ms < MillisPerDay
    ensures var t := EpochDay(d.year, d.month, d.day) * MillisPerDay + ms;
      DateAt(t) == d && MillisOfDay(t) == ms && Day(t) == EpochDay(d.year, d.month, d.day)
  {
    DayOfInstant(EpochDay(d.year, d.month, d.day), ms);
    DateOfEpochDay(d);
  }

  /** Setting the four time fields to in-range values keeps the day and reads back as set. */
  lemma SetTimeOfDayFields(t: int, h: int, m: int, s: int, ms: int)
    requires 0 <= h < 24 && 0 <= m < 60 && 0 <= s < 60 && 0 <= ms < 1000
    ensures var r := SetTimeOfDay(t, h, m, s, ms);
      Day(r) == Day(t) && HourOfDay(r) == h && Minute(r) == m && Second(r) == s && Millisecond(r) == ms
  {
    var y := h * MillisPerHour + m * MillisPerMinute + s * MillisPerSecond + ms;
    DayOfInstant(Day(t), y);
    DivMod(h, m * MillisPerMinute + s * MillisPerSecond + ms, MillisPerHour);
    DivMod(h * 60 + m, s * MillisPerSecond + ms, MillisPerMinute);
    DivMod(h, m, 60);
    DivMod(h * 3600 + m * 60 + s, ms, MillisPerSecond);
    DivMod(h * 60 + m, s, 60);
  }

  /** The minute field counts whole minutes since the epoch, modulo 60. */
  lemma MinuteAbsolute(t: int)
    ensures Minute(t) == (t / MillisPerMinute) % 60
  {
    var x := MillisOfDay(t);
    var q := x / MillisPerMinute;
    DivMod(Day(t) * 1440 + q, x % MillisPerMinute, MillisPerMinute);
    DivMod(Day(t) * 24 + q / 60, q % 60, 60);
  }

  /** The hour field counts whole hours since the epoch, modulo 24. */
  lemma HourAbsolute(t: int)
    ensures HourOfDay(t) == (t / MillisPerHour) % 24
  {
    var x := MillisOfDay(t);
    DivMod(Day(t) * 24 + x / MillisPerHour, x % MillisPerHour, MillisPerHour);
    DivMod(Day(t), x / MillisPerHour, 24);
  }

  /** add(MINUTE, n) moves the minute field cyclically. */
  lemma AddMinutesMinute(t: int, n: int)
    ensures Minute(AddMinutes(t, n)) == (Minute(t) + n) % 60
  {
    MinuteAbsolute(t);
    MinuteAbsolute(AddMinutes(t, n));
    var a := t / MillisPerMinute;
    DivMod(a + n, t % MillisPerMinute, MillisPerMinute);
    DivMod(a / 60 + (a % 60 + n) / 60, (a % 60 + n) % 60, 60);
  }

  /** add(HOUR_OF_DAY, n) moves the hour field cyclically and keeps the minute. */
  lemma AddHoursFields(t: int, n: int)
    ensures HourOfDay(AddHours(t, n)) == (HourOfDay(t) + n) % 24
    ensures Minute(AddHours(t, n)) == Minute(t)
  {
    HourAbsolute(t);
    HourAbsolute(AddHours(t, n));
    var a := t / MillisPerHour;
    DivMod(a + n, t % MillisPerHour, MillisPerHour);
    DivMod(a / 24 + (a % 24 + n) / 24, (a % 24 + n) % 24, 24);
    MinuteAbsolute(t);
    MinuteAbsolute(AddHours(t, n));
    var b := t / MillisPerMinute;
    DivMod(b + 60 * n, t % MillisPerMinute, MillisPerMinute);
    DivMod(b / 60 + n, b % 60, 60);
  }

  /** set(YEAR, y) to a later year moves the instant forward. */
  lemma SetYearLater(t: int, y: int)
    requires Year(t) < y
    ensures t < SetYear(t, y)
  {
    var d := DateAt(t);
    DaysBeforeYearMonotone(d.year, y);
    DaySplit(t);
    assert Day(t) == EpochDay(d.year, d.month, d.day);
  }

  /** set(DAY_OF_YEAR, d) to a later day of the same year moves the instant forward. */
  lemma SetDayOfYearLater(t: int, d: int)
    requires DayOfYear(t) < d
    ensures t < SetDayOfYear(t, d)
  {
    DaySplit(t);
  }

  /** Adding days that stay within the month moves only the day of the month. */
  lemma AddDaysInMonth(t: int, n: int)
    requires 0 <= n && DayOfMonth(t) + n <= ActualMaximumDayOfMonth(t)
    ensures DateAt(AddDays(t, n)) == Date(Year(t), Month(t), DayOfMonth(t) + n)
  {
    var d := DateAt(t);
    var e := Date(d.year, d.month, d.day + n);
    AddDaysFields(t, n);
    DateOfEpochDay(e);
  }

  /** Adding days that run at most 28 days past the month's end lands in the following month. */
  lemma AddDaysNextMonth(t: int, n: int)
    requires ActualMaximumDayOfMonth(t) < DayOfMonth(t) + n <= ActualMaximumDayOfMonth(t) + 28
    ensures var next := if Month(t) == 11 then Date(Year(t) + 1, 0, 0) else Date(Year(t), Month(t) + 1, 0);
      DateAt(AddDays(t, n)) == next.(day := DayOfMonth(t) + n - ActualMaximumDayOfMonth(t))
  {
    var d := DateAt(t);
    var e := NextMonthDay(d, d.day + n - MonthLength(d.year, d.month));
    NextMonthEpochDay(d, n);
    AddDaysFields(t, n);
    DateOfEpochDay(e);
  }

  /** Day x of the month after d's month. */
  function NextMonthDay(d: Date, x: int): Date
  {
    if d.month == 11 then Date(d.year + 1, 0, x) else Date(d.year, d.month + 1, x)
  }

  /** Running at most 28 days past the end of d's month lands that many days into the next month. */
  lemma NextMonthEpochDay(d: Date, n: int)
    requires ValidDate(d) && MonthLength(d.year, d.month) < d.day + n <= MonthLength(d.year, d.month) + 28
    ensures var e := NextMonthDay(d, d.day + n - MonthLength(d.year, d.month));
      ValidDate(e) && EpochDay(e.year, e.month, e.day) == EpochDay(d.year, d.month, d.day) + n
  {
    DaysBeforeNextMonth(d.year, d.month);
    if d.month == 11 {
      DaysBeforeNextYear(d.year);
    }
  }

  /** An instant's position within its minute depends only on its time of day. */
  lemma MinuteGrid(t: int)
    ensures t % MillisPerMinute == MillisOfDay(t) % MillisPerMinute
  {
    var x := MillisOfDay(t);
    DaySplit(t);
    assert t == (Day(t) * 1440 + x / MillisPerMinute) * MillisPerMinute + x % MillisPerMinute;
    DivMod(Day(t) * 1440 + x / MillisPerMinute, x % MillisPerMinute, MillisPerMinute);
  }

  /** Seconds and milliseconds are both zero exactly on a whole minute. */
  lemma WholeMinuteFields(t: int)
    ensures t % MillisPerMinute == 0 <==> Second(t) == 0 && Millisecond(t) == 0
  {
    var x := MillisOfDay(t);
    MinuteGrid(t);
    assert x / MillisPerSecond / 60 == x / MillisPerMinute;
    assert x % MillisPerMinute == x / MillisPerSecond % 60 * MillisPerSecond + x % MillisPerSecond;
  }

  /**
   * set(SECOND, 0) then set(MILLISECOND, 0): the start of the instant's minute, less than a
   * minute earlier.
   */
  lemma ZeroSecondsFields(t: int)
    ensures var u := SetMillisecond(SetSecond(t, 0), 0);
      u % MillisPerMinute == 0 && t - MillisPerMinute < u <= t && MillisOfDay(u) / MillisPerMinute == MillisOfDay(t) / MillisPerMinute
  {
    var x := MillisOfDay(t);
    var s, ms := Second(t), Millisecond(t);
    assert x / MillisPerSecond / 60 == x / MillisPerMinute;
    assert x == x / MillisPerMinute * MillisPerMinute + s * MillisPerSecond + ms;
    var u1 := SetSecond(t, 0);
    DaySplit(t);
    assert u1 == Day(t) * MillisPerDay + (x - s * MillisPerSecond);
    DayOfInstant(Day(t), x - s * MillisPerSecond);
    assert Millisecond(u1) == ms;
    var u := SetMillisecond(u1, 0);
    assert u == Day(t) * MillisPerDay + x / MillisPerMinute * MillisPerMinute;
    DayOfInstant(Day(t), x / MillisPerMinute * MillisPerMinute);
    MinuteGrid(u);
  }

  /** set(YEAR, y) keeps the time of day. */
  lemma SetYearKeepsTime(t: int, y: int)
    ensures MillisOfDay(SetYear(t, y)) == MillisOfDay(t)
  {
    DayOfInstant(EpochDay(y, Month(t), DayOfMonth(t)), MillisOfDay(t));
  }

  /** set(DAY_OF_YEAR, d) keeps the time of day. */
  lemma SetDayOfYearKeepsTime(t: int, d: int)
    ensures MillisOfDay(SetDayOfYear(t, d)) == MillisOfDay(t)
  {
    DayOfInstant(DaysBeforeYear(Year(t)) + d - 1, MillisOfDay(t));
  }

  /** add(MONTH, n) moves year and month together, as a count of months, and keeps the time of day. */
  lemma AddMonthsFields(t: int, n: int)
    ensures var total := Year(t) * 12 + Month(t) + n;
      Year(AddMonths(t, n)) == total / 12 && Month(AddMonths(t, n)) == total % 12 &&
      MillisOfDay(AddMonths(t, n)) == MillisOfDay(t)
  {
    AddMonthsDate(t, n);
    MonthsLaterCount(DateAt(t), n);
  }

  /** add(MONTH, n) lands on the date n months later, at the same time of day. */
  lemma AddMonthsDate(t: int, n: int)
    ensures DateAt(AddMonths(t, n)) == MonthsLater(DateAt(t), n)
    ensures MillisOfDay(AddMonths(t, n)) == MillisOfDay(t)
  {
    FieldsAtDate(MonthsLater(DateAt(t), n), MillisOfDay(t));
  }

  /** n months after d: year and month move together, as a count of months. */
  lemma MonthsLaterCount(d: Date, n: int)
    requires ValidDate(d)
    ensures var total := d.year * 12 + d.month + n;
      MonthsLater(d, n).year == total / 12 && MonthsLater(d, n).month == total % 12
  {
  }

  /** set(DAY_OF_MONTH, 1): the first day of the same month, at the same time of day. */
  lemma FirstOfMonthFields(t: int)
    ensures DateAt(SetDayOfMonth(t, 1)) == Date(Year(t), Month(t), 1)
    ensures MillisOfDay(SetDayOfMonth(t, 1)) == MillisOfDay(t)
  {
    var d := DateAt(t);
    assert SetDayOfMonth(t, 1) == AddDays(t, 1 - d.day);
    AddDaysFields(t, 1 - d.day);
    assert Day(SetDayOfMonth(t, 1)) == EpochDay(d.year, d.month, 1);
    DateOfEpochDay(Date(d.year, d.month, 1));
  }

  /** The first day of a later month comes after every instant of the current one. */
  lemma LaterMonthStartsLater(t: int, n: int)
    requires 1 <= n
    ensures t < SetDayOfMonth(AddMonths(t, n), 1)
  {
    var u := AddMonths(t, n);
    var y, m, d := Year(t), Month(t), DayOfMonth(t);
    var y', m' := Year(u), Month(u);
    AddMonthsFields(t, n);
    FirstOfMonthFields(u);
    var v := SetDayOfMonth(u, 1);
    assert Day(v) == EpochDay(y', m', 1);
    assert Day(t) == EpochDay(y, m, d);
    if y' == y {
      DaysBeforeMonthMonotone(y, m, m');
    } else {
      assert y < y';
      DaysBeforeYearMonotone(y, y');
      DaysBeforeNextMonth(y, m);
      if m + 1 < 12 {
        DaysBeforeMonthMonotone(y, m + 1, 12);
      }
    }
    assert Day(t) < Day(v);
    DaySplit(t);
    DaySplit(v);
  }
}
