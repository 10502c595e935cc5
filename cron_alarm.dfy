/**
 * CronAlarm: rings at the instants whose minute, hour, day of the month, month and day of the
 * week its five field lists accept. nextAlarm starts from the clock (or one minute after the
 * previous alarm when that is later) on a whole minute, then moves forward in a cascade: to an
 * accepted minute, to an accepted hour, and finally to an accepted month and day together.
 */
module CronAlarms {
  import opened Wrappers
  import opened JavaLang
  import opened GregorianCalendar
  import opened AlarmUtils
  import opened EntryRules
  import opened CronParameters

  const MinMinute: int := 0
  const MaxMinute: int := 59

  // ---------------------------------------------------------------- fields that may be null

  /** isIn(find, field): a null array, like an empty one, accepts every value. */
  predicate Accepts(field: Option<seq<int>>, find: int)
  {
    field.None? || IsIn(find, field.value)
  }

  /** getOffsetToNextOrEqual on a field: a null array raises NullPointerException. */
  function FieldOffset(current: int, min: int, max: int, field: Option<seq<int>>): Result<int, Fault>
  {
    if field.None? then Failure(NullPointer) else OffsetToNextOrEqual(current, min, max, field.value)
  }

  /** A non-empty field whose first value is not the wildcard. */
  predicate IsRestricted(field: Option<seq<int>>)
  {
    field.Some? && 0 < |field.value| && field.value[0] != Any
  }

  /**
   * The test field[0] != -1: NullPointerException on a null array and
   * ArrayIndexOutOfBoundsException on an empty one.
   */
  function Restricted(field: Option<seq<int>>): (r: Result<bool, Fault>)
    ensures r == Failure(NullPointer) <==> field.None?
    ensures r == Failure(IndexOutOfBounds) <==> field == Some([])
    ensures r.Success? ==> (r.value <==> IsRestricted(field))
  {
    if field.None? then Failure(NullPointer)
    else if |field.value| == 0 then Failure(IndexOutOfBounds)
    else Success(field.value[0] != Any)
  }

  /** A field no loop can be moved backwards by: null, the wildcard, or no value below min. */
  predicate LowerBounded(field: Option<seq<int>>, min: int)
  {
    field.None? || IsWildcard(field.value) || AtLeast(field.value, min)
  }

  /** A field whose values are the wildcard or lie in min..max. */
  predicate WithinRange(field: Option<seq<int>>, min: int, max: int)
  {
    field.Some? && (IsWildcard(field.value) || (AtLeast(field.value, min) && AtMost(field.value, max)))
  }

  // ---------------------------------------------------------------- the month step

  /**
   * The month part of a loop round: an instant in an accepted month stays; otherwise
   * add(MONTH, offset) to the next accepted month and set(DAY_OF_MONTH, 1).
   */
  function MonthStep(months: Option<seq<int>>, t: int): Result<int, Fault>
  {
    if Accepts(months, Month(t)) then Success(t)
    else
      var off :- FieldOffset(Month(t), MinMonth, MaxMonth, months);
      Success(SetDayOfMonth(AddMonths(t, off), 1))
  }

  /**
   * The month step keeps the time of day, and on a lower-bounded month list it never moves
   * backwards: it goes to the first day of a strictly later month.
   */
  lemma MonthStepForward(months: Option<seq<int>>, t: int)
    ensures var r := MonthStep(months, t);
      r.Success? ==> MillisOfDay(r.value) == MillisOfDay(t) && (r.value == t || DayOfMonth(r.value) == 1)
    ensures var r := MonthStep(months, t);
      r.Success? && LowerBounded(months, MinMonth) ==> t <= r.value
  {
    var r := MonthStep(months, t);
    if r.Success? && !Accepts(months, Month(t)) {
      var off := FieldOffset(Month(t), MinMonth, MaxMonth, months).value;
      var u := AddMonths(t, off);
      AddMonthsFields(t, off);
      FirstOfMonthFields(u);
      if LowerBounded(months, MinMonth) {
        var safe := Discarded(months.value, MaxMonth);
        OrEqualCases(Month(t), MinMonth, MaxMonth, months.value);
        assert 0 < |safe| ==> safe[0] == months.value[0];
        assert 1 <= off;
        LaterMonthStartsLater(t, off);
      }
    }
  }

  // ---------------------------------------------------------------- the day searches

  /** The searches give up after this many rounds, reporting a loop that does not end. */
  const RoundBound: nat := 1000

  /**
   * The shape of both day searches as a value: from round n on, stop at the first instant the
   * exit test accepts, otherwise apply one round and go on; a failing round ends the search.
   */
  function RoundSearch(accept: int -> bool, round: int -> Result<int, Fault>, t: int, n: nat): Result<int, Fault>
    requires n <= RoundBound
    decreases RoundBound - n
  {
    if accept(t) then Success(t)
    else if n == RoundBound then Failure(Diverges)
    else
      var u :- round(t);
      RoundSearch(accept, round, u, n + 1)
  }

  /** A search that ends lands on an instant its exit test accepts. */
  lemma {:induction false} RoundSearchLands(accept: int -> bool, round: int -> Result<int, Fault>, t: int, n: nat)
    requires n <= RoundBound
    ensures var r := RoundSearch(accept, round, t, n); r.Success? ==> accept(r.value)
    decreases RoundBound - n
  {
    if !accept(t) && n < RoundBound && round(t).Success? {
      RoundSearchLands(accept, round, round(t).value, n + 1);
    }
  }

  /** A quantity every round keeps is kept by the whole search. */
  lemma {:induction false} RoundSearchKeeps(accept: int -> bool, round: int -> Result<int, Fault>, key: int -> int, t: int, n: nat)
    requires n <= RoundBound
    requires forall x :: round(x).Success? ==> key(round(x).value) == key(x)
    ensures var r := RoundSearch(accept, round, t, n); r.Success? ==> key(r.value) == key(t)
    decreases RoundBound - n
  {
    if !accept(t) && n < RoundBound && round(t).Success? {
      RoundSearchKeeps(accept, round, key, round(t).value, n + 1);
    }
  }

  /** When no round moves backwards, neither does the search. */
  lemma {:induction false} RoundSearchForward(accept: int -> bool, round: int -> Result<int, Fault>, t: int, n: nat)
    requires n <= RoundBound
    requires forall x :: round(x).Success? ==> x <= round(x).value
    ensures var r := RoundSearch(accept, round, t, n); r.Success? ==> t <= r.value
    decreases RoundBound - n
  {
    if !accept(t) && n < RoundBound && round(t).Success? {
      RoundSearchForward(accept, round, round(t).value, n + 1);
    }
  }

  // ---------------------------------------------------------------- updateDayOfMonthAndMonth

  /**
   * The loop test of updateDayOfMonthAndMonth on its cached values: the month is accepted and
   * so is the day, in the day list as substituted for a month of maxDayOfMonth days.
   */
  predicate CachedMonthDayAccepted(months: Option<seq<int>>, month: int, dayOfMonth: int, local: seq<int>, maxDayOfMonth: int)
  {
    Accepts(months, month) && IsInDay(dayOfMonth, local, maxDayOfMonth)
  }

  /** The exit test of updateDayOfMonthAndMonth: the month is accepted and so is the day, 32 being the last day. */
  predicate MonthDayAccepted(months: Option<seq<int>>, days: seq<int>, t: int)
  {
    var max := ActualMaximumDayOfMonth(t);
    CachedMonthDayAccepted(months, Month(t), DayOfMonth(t), LastDaySubstituted(days, max), max)
  }

  /** One round of updateDayOfMonthAndMonth: the month step, then forward to an accepted day. */
  function MonthDayRound(months: Option<seq<int>>, days: seq<int>, t: int): Result<int, Fault>
  {
    var a :- MonthStep(months, t);
    var max := ActualMaximumDayOfMonth(a);
    var local := LastDaySubstituted(days, max);
    if IsInDay(DayOfMonth(a), local, max) then Success(a)
    else
      var off :- OffsetToNextOrEqual(DayOfMonth(a), MinDayOfMonth, max, local);
      Success(AddDays(a, off))
  }

  /** updateDayOfMonthAndMonth as a value, from round n on. */
  function MonthDaySearch(months: Option<seq<int>>, days: seq<int>, t: int, n: nat): Result<int, Fault>
    requires n <= RoundBound
  {
    RoundSearch(u => MonthDayAccepted(months, days, u), u => MonthDayRound(months, days, u), t, n)
  }

  /** Past a rejected instant the search gives up at the bound, fails with a failing round, or goes on from the round's result. */
  lemma MonthDaySearchRound(months: Option<seq<int>>, days: seq<int>, t: int, n: nat)
    requires n <= RoundBound && !MonthDayAccepted(months, days, t)
    ensures n == RoundBound ==> MonthDaySearch(months, days, t, n) == Failure(Diverges)
    ensures n < RoundBound && MonthDayRound(months, days, t).Failure? ==>
      MonthDaySearch(months, days, t, n) == Failure(MonthDayRound(months, days, t).error)
    ensures n < RoundBound && MonthDayRound(months, days, t).Success? ==>
      MonthDaySearch(months, days, t, n) == MonthDaySearch(months, days, MonthDayRound(months, days, t).value, n + 1)
  {
  }

  /** The search stops at an accepted instant. */
  lemma MonthDaySearchStops(months: Option<seq<int>>, days: seq<int>, t: int, n: nat)
    requires n <= RoundBound && MonthDayAccepted(months, days, t)
    ensures MonthDaySearch(months, days, t, n) == Success(t)
  {
  }

  /** The substituted list holds no 32, so its three-argument test is the plain one. */
  lemma SubstitutedHasNoLastDay(days: seq<int>, max: int)
    requires 28 <= max <= 31
    ensures LastDayOfMonth !in LastDaySubstituted(days, max)
  {
    var local := LastDaySubstituted(days, max);
    forall i | 0 <= i < |local|
      ensures local[i] != LastDayOfMonth
    {
    }
  }

  /**
   * The exit test is the source's reading of a day list: the month is accepted and the day is
   * listed, or is the month's last day and 32 is listed.
   */
  lemma MonthDayAcceptedMeans(months: Option<seq<int>>, days: seq<int>, t: int)
    ensures MonthDayAccepted(months, days, t) <==>
      Accepts(months, Month(t)) && IsInDay(DayOfMonth(t), days, ActualMaximumDayOfMonth(t))
  {
    var max := ActualMaximumDayOfMonth(t);
    SubstitutedHasNoLastDay(days, max);
    SubstitutedMembership(DayOfMonth(t), days, max);
  }

  /** A search that ends lands on an accepted month and on a listed day (or the last day, 32 being listed). */
  lemma MonthDaySearchLands(months: Option<seq<int>>, days: seq<int>, t: int)
    ensures var r := MonthDaySearch(months, days, t, 0);
      r.Success? ==> Accepts(months, Month(r.value)) && IsInDay(DayOfMonth(r.value), days, ActualMaximumDayOfMonth(r.value))
  {
    var r := MonthDaySearch(months, days, t, 0);
    RoundSearchLands(u => MonthDayAccepted(months, days, u), u => MonthDayRound(months, days, u), t, 0);
    if r.Success? {
      MonthDayAcceptedMeans(months, days, r.value);
    }
  }

  lemma MonthDayRoundKeepsTime(months: Option<seq<int>>, days: seq<int>, t: int)
    ensures var r := MonthDayRound(months, days, t);
      r.Success? ==> MillisOfDay(r.value) == MillisOfDay(t)
  {
    MonthStepForward(months, t);
    var a := MonthStep(months, t);
    if a.Success? {
      var max := ActualMaximumDayOfMonth(a.value);
      var off := OffsetToNextOrEqual(DayOfMonth(a.value), MinDayOfMonth, max, LastDaySubstituted(days, max));
      if off.Success? {
        AddDaysFields(a.value, off.value);
      }
    }
  }

  /** A search that ends keeps the time of day. */
  lemma MonthDaySearchKeepsTime(months: Option<seq<int>>, days: seq<int>, t: int)
    ensures var r := MonthDaySearch(months, days, t, 0);
      r.Success? ==> MillisOfDay(r.value) == MillisOfDay(t)
  {
    forall x
      ensures MonthDayRound(months, days, x).Success? ==> MillisOfDay(MonthDayRound(months, days, x).value) == MillisOfDay(x)
    {
      MonthDayRoundKeepsTime(months, days, x);
    }
    RoundSearchKeeps(u => MonthDayAccepted(months, days, u), u => MonthDayRound(months, days, u), MillisOfDay, t, 0);
  }

  /** Every value of the substituted list is a day of the month when every listed value is. */
  lemma SubstitutedLowerBounded(days: seq<int>, max: int)
    requires 1 <= max && (IsWildcard(days) || AtLeast(days, MinDayOfMonth))
    ensures var local := LastDaySubstituted(days, max);
      IsWildcard(local) || AtLeast(local, MinDayOfMonth)
  {
  }

  /** On lower-bounded month and day lists, a round never moves backwards. */
  lemma MonthDayRoundForward(months: Option<seq<int>>, days: seq<int>, t: int)
    requires LowerBounded(months, MinMonth) && LowerBounded(Some(days), MinDayOfMonth)
    ensures var r := MonthDayRound(months, days, t); r.Success? ==> t <= r.value
  {
    MonthStepForward(months, t);
    var a := MonthStep(months, t);
    if a.Success? {
      var max := ActualMaximumDayOfMonth(a.value);
      var local := LastDaySubstituted(days, max);
      var cur := DayOfMonth(a.value);
      var off := OffsetToNextOrEqual(cur, MinDayOfMonth, max, local);
      if !IsInDay(cur, local, max) && off.Success? {
        SubstitutedLowerBounded(days, max);
        assert !IsWildcard(local);
        OffsetLands(cur, MinDayOfMonth, max, local);
      }
    }
  }

  /** On lower-bounded month and day lists, the search never moves backwards. */
  lemma MonthDaySearchForward(months: Option<seq<int>>, days: seq<int>, t: int)
    requires LowerBounded(months, MinMonth) && LowerBounded(Some(days), MinDayOfMonth)
    ensures var r := MonthDaySearch(months, days, t, 0); r.Success? ==> t <= r.value
  {
    forall x
      ensures MonthDayRound(months, days, x).Success? ==> x <= MonthDayRound(months, days, x).value
    {
      MonthDayRoundForward(months, days, x);
    }
    RoundSearchForward(u => MonthDayAccepted(months, days, u), u => MonthDayRound(months, days, u), t, 0);
  }

  /**
   * The body of updateDayOfMonthAndMonth's loop: one round from alarm, then the cached month,
   * day, month length and substituted day list refreshed for the new instant.
   */
  method DayOfMonthRound(months: Option<seq<int>>, days: seq<int>, alarm: int, currentMonth: int, currentDayOfMonth: int,
                         currentMaxDayOfMonth: int, localDaysOfMonth: seq<int>, ghost n: nat)
    returns (r: Result<int, Fault>, month: int, dayOfMonth: int, maxDayOfMonth: int, local: seq<int>)
    requires currentMonth == Month(alarm) && currentDayOfMonth == DayOfMonth(alarm)
    requires currentMaxDayOfMonth == ActualMaximumDayOfMonth(alarm)
    requires localDaysOfMonth == LastDaySubstituted(days, currentMaxDayOfMonth)
    requires n < RoundBound && !MonthDayAccepted(months, days, alarm)
    ensures r.Failure? ==> MonthDaySearch(months, days, alarm, n) == Failure(r.error)
    ensures r.Success? ==> MonthDaySearch(months, days, r.value, n + 1) == MonthDaySearch(months, days, alarm, n)
    ensures r.Success? ==> month == Month(r.value) && dayOfMonth == DayOfMonth(r.value)
    ensures r.Success? ==> maxDayOfMonth == ActualMaximumDayOfMonth(r.value) && local == LastDaySubstituted(days, maxDayOfMonth)
  {
    var next := alarm;
    var day := currentDayOfMonth;
    if !Accepts(months, currentMonth) {
      var offset := FieldOffset(currentMonth, MinMonth, MaxMonth, months);
      if offset.Failure? {
        MonthDaySearchRound(months, days, alarm, n);
        return Failure(offset.error), currentMonth, currentDayOfMonth, currentMaxDayOfMonth, localDaysOfMonth;
      }
      next := AddMonths(next, offset.value);
      next := SetDayOfMonth(next, 1);
      day := 1;
      FirstOfMonthFields(AddMonths(alarm, offset.value));
    }
    assert MonthStep(months, alarm) == Success(next);
    var currentMax := currentMaxDayOfMonth;
    maxDayOfMonth, local := ActualMaximumDayOfMonth(next), localDaysOfMonth;
    if currentMax != maxDayOfMonth {
      currentMax := maxDayOfMonth;
      local := GetDaysOfMonth(days, maxDayOfMonth);
    }
    if !IsInDay(day, local, maxDayOfMonth) {
      var offset := OffsetToNextOrEqual(day, MinDayOfMonth, maxDayOfMonth, local);
      if offset.Failure? {
        assert MonthDayRound(months, days, alarm) == Failure(offset.error);
        MonthDaySearchRound(months, days, alarm, n);
        return Failure(offset.error), currentMonth, day, maxDayOfMonth, local;
      }
      next := AddDays(next, offset.value);
    }
    assert MonthDayRound(months, days, alarm) == Success(next);
    MonthDaySearchRound(months, days, alarm, n);
    r := Success(next);
    month := Month(next);
    dayOfMonth := DayOfMonth(next);
    maxDayOfMonth := ActualMaximumDayOfMonth(next);
    if currentMax != maxDayOfMonth {
      local := GetDaysOfMonth(days, maxDayOfMonth);
    }
  }

  /**
   * updateDayOfMonthAndMonth: the loop with its cached month, day, month length and
   * substituted day list, the round bound reported as a loop that does not end.
   */
  method UpdateDayOfMonthAndMonth(months: Option<seq<int>>, days: seq<int>, t: int) returns (r: Result<int, Fault>)
    ensures r == MonthDaySearch(months, days, t, 0)
  {
    var alarm := t;
    var currentMonth := Month(alarm);
    var currentDayOfMonth := DayOfMonth(alarm);
    var maxDayOfMonth := ActualMaximumDayOfMonth(alarm);
    var localDaysOfMonth := GetDaysOfMonth(days, maxDayOfMonth);
    var n := 0;
    while !CachedMonthDayAccepted(months, currentMonth, currentDayOfMonth, localDaysOfMonth, maxDayOfMonth)
      invariant 0 <= n <= RoundBound
      invariant MonthDaySearch(months, days, alarm, n) == MonthDaySearch(months, days, t, 0)
      invariant currentMonth == Month(alarm) && currentDayOfMonth == DayOfMonth(alarm)
      invariant maxDayOfMonth == ActualMaximumDayOfMonth(alarm) && localDaysOfMonth == LastDaySubstituted(days, maxDayOfMonth)
      decreases RoundBound - n
    {
      if n == RoundBound {
        MonthDaySearchRound(months, days, alarm, n);
        return Failure(Diverges);
      }
      var round;
      round, currentMonth, currentDayOfMonth, maxDayOfMonth, localDaysOfMonth :=
        DayOfMonthRound(months, days, alarm, currentMonth, currentDayOfMonth, maxDayOfMonth, localDaysOfMonth, n);
      if round.Failure? {
        return Failure(round.error);
      }
      alarm := round.value;
      n := n + 1;
    }
    MonthDaySearchStops(months, days, alarm, n);
    return Success(alarm);
  }

  // ---------------------------------------------------------------- updateDayOfWeekAndMonth

  /** The loop test of updateDayOfWeekAndMonth on its cached month and day of the week. */
  predicate CachedMonthWeekdayAccepted(months: Option<seq<int>>, month: int, dayOfWeek: int, days: seq<int>)
  {
    Accepts(months, month) && IsIn(dayOfWeek, days)
  }

  /** The exit test of updateDayOfWeekAndMonth: the month and the day of the week are accepted. */
  predicate MonthWeekdayAccepted(months: Option<seq<int>>, days: seq<int>, t: int)
  {
    CachedMonthWeekdayAccepted(months, Month(t), DayOfWeek(t), days)
  }

  /** One round of updateDayOfWeekAndMonth: the month step, then forward to an accepted day of the week. */
  function MonthWeekdayRound(months: Option<seq<int>>, days: seq<int>, t: int): Result<int, Fault>
  {
    var a :- MonthStep(months, t);
    if IsIn(DayOfWeek(a), days) then Success(a)
    else
      var off :- OffsetToNextOrEqual(DayOfWeek(a), MinDayOfWeek, MaxDayOfWeek, days);
      Success(AddDays(a, off))
  }

  /** updateDayOfWeekAndMonth as a value, from round n on. */
  function MonthWeekdaySearch(months: Option<seq<int>>, days: seq<int>, t: int, n: nat): Result<int, Fault>
    requires n <= RoundBound
  {
    RoundSearch(u => MonthWeekdayAccepted(months, days, u), u => MonthWeekdayRound(months, days, u), t, n)
  }

  /** Past a rejected instant the search gives up at the bound, fails with a failing round, or goes on from the round's result. */
  lemma MonthWeekdaySearchRound(months: Option<seq<int>>, days: seq<int>, t: int, n: nat)
    requires n <= RoundBound && !MonthWeekdayAccepted(months, days, t)
    ensures n == RoundBound ==> MonthWeekdaySearch(months, days, t, n) == Failure(Diverges)
    ensures n < RoundBound && MonthWeekdayRound(months, days, t).Failure? ==>
      MonthWeekdaySearch(months, days, t, n) == Failure(MonthWeekdayRound(months, days, t).error)
    ensures n < RoundBound && MonthWeekdayRound(months, days, t).Success? ==>
      MonthWeekdaySearch(months, days, t, n) == MonthWeekdaySearch(months, days, MonthWeekdayRound(months, days, t).value, n + 1)
  {
  }

  /** The search stops at an accepted instant. */
  lemma MonthWeekdaySearchStops(months: Option<seq<int>>, days: seq<int>, t: int, n: nat)
    requires n <= RoundBound && MonthWeekdayAccepted(months, days, t)
    ensures MonthWeekdaySearch(months, days, t, n) == Success(t)
  {
  }

  /** A search that ends lands on an accepted month and day of the week. */
  lemma MonthWeekdaySearchLands(months: Option<seq<int>>, days: seq<int>, t: int)
    ensures var r := MonthWeekdaySearch(months, days, t, 0);
      r.Success? ==> Accepts(months, Month(r.value)) && IsIn(DayOfWeek(r.value), days)
  {
    var r := MonthWeekdaySearch(months, days, t, 0);
    RoundSearchLands(u => MonthWeekdayAccepted(months, days, u), u => MonthWeekdayRound(months, days, u), t, 0);
    assert r.Success? ==> MonthWeekdayAccepted(months, days, r.value);
  }

  lemma MonthWeekdayRoundKeepsTime(months: Option<seq<int>>, days: seq<int>, t: int)
    ensures var r := MonthWeekdayRound(months, days, t);
      r.Success? ==> MillisOfDay(r.value) == MillisOfDay(t)
  {
    MonthStepForward(months, t);
    var a := MonthStep(months, t);
    if a.Success? {
      var off := OffsetToNextOrEqual(DayOfWeek(a.value), MinDayOfWeek, MaxDayOfWeek, days);
      if off.Success? {
        AddDaysFields(a.value, off.value);
      }
    }
  }

  /** A search that ends keeps the time of day. */
  lemma MonthWeekdaySearchKeepsTime(months: Option<seq<int>>, days: seq<int>, t: int)
    ensures var r := MonthWeekdaySearch(months, days, t, 0);
      r.Success? ==> MillisOfDay(r.value) == MillisOfDay(t)
  {
    forall x
      ensures MonthWeekdayRound(months, days, x).Success? ==> MillisOfDay(MonthWeekdayRound(months, days, x).value) == MillisOfDay(x)
    {
      MonthWeekdayRoundKeepsTime(months, days, x);
    }
    RoundSearchKeeps(u => MonthWeekdayAccepted(months, days, u), u => MonthWeekdayRound(months, days, u), MillisOfDay, t, 0);
  }

  /** On lower-bounded month and weekday lists, a round never moves backwards. */
  lemma MonthWeekdayRoundForward(months: Option<seq<int>>, days: seq<int>, t: int)
    requires LowerBounded(months, MinMonth) && LowerBounded(Some(days), MinDayOfWeek)
    ensures var r := MonthWeekdayRound(months, days, t); r.Success? ==> t <= r.value
  {
    MonthStepForward(months, t);
    var a := MonthStep(months, t);
    if a.Success? {
      var cur := DayOfWeek(a.value);
      var off := OffsetToNextOrEqual(cur, MinDayOfWeek, MaxDayOfWeek, days);
      if !IsIn(cur, days) && off.Success? {
        OffsetLands(cur, MinDayOfWeek, MaxDayOfWeek, days);
      }
    }
  }

  /** On lower-bounded month and weekday lists, the search never moves backwards. */
  lemma MonthWeekdaySearchForward(months: Option<seq<int>>, days: seq<int>, t: int)
    requires LowerBounded(months, MinMonth) && LowerBounded(Some(days), MinDayOfWeek)
    ensures var r := MonthWeekdaySearch(months, days, t, 0); r.Success? ==> t <= r.value
  {
    forall x
      ensures MonthWeekdayRound(months, days, x).Success? ==> x <= MonthWeekdayRound(months, days, x).value
    {
      MonthWeekdayRoundForward(months, days, x);
    }
    RoundSearchForward(u => MonthWeekdayAccepted(months, days, u), u => MonthWeekdayRound(months, days, u), t, 0);
  }

  /**
   * The body of updateDayOfWeekAndMonth's loop: one round from alarm, then the cached month
   * and day of the week refreshed for the new instant.
   */
  method DayOfWeekRound(months: Option<seq<int>>, days: seq<int>, alarm: int, currentMonth: int, currentDayOfWeek: int, ghost n: nat)
    returns (r: Result<int, Fault>, month: int, dayOfWeek: int)
    requires currentMonth == Month(alarm) && currentDayOfWeek == DayOfWeek(alarm)
    requires n < RoundBound && !MonthWeekdayAccepted(months, days, alarm)
    ensures r.Failure? ==> MonthWeekdaySearch(months, days, alarm, n) == Failure(r.error)
    ensures r.Success? ==> MonthWeekdaySearch(months, days, r.value, n + 1) == MonthWeekdaySearch(months, days, alarm, n)
    ensures r.Success? ==> month == Month(r.value) && dayOfWeek == DayOfWeek(r.value)
  {
    var next := alarm;
    var day := currentDayOfWeek;
    if !Accepts(months, currentMonth) {
      var offset := FieldOffset(currentMonth, MinMonth, MaxMonth, months);
      if offset.Failure? {
        MonthWeekdaySearchRound(months, days, alarm, n);
        return Failure(offset.error), currentMonth, currentDayOfWeek;
      }
      next := AddMonths(next, offset.value);
      next := SetDayOfMonth(next, 1);
      day := DayOfWeek(next);
    }
    assert MonthStep(months, alarm) == Success(next);
    if !IsIn(day, days) {
      var offset := OffsetToNextOrEqual(day, MinDayOfWeek, MaxDayOfWeek, days);
      if offset.Failure? {
        assert MonthWeekdayRound(months, days, alarm) == Failure(offset.error);
        MonthWeekdaySearchRound(months, days, alarm, n);
        return Failure(offset.error), currentMonth, day;
      }
      next := AddDays(next, offset.value);
    }
    assert MonthWeekdayRound(months, days, alarm) == Success(next);
    MonthWeekdaySearchRound(months, days, alarm, n);
    r := Success(next);
    dayOfWeek := DayOfWeek(next);
    month := Month(next);
  }

  /** updateDayOfWeekAndMonth: the loop, the round bound reported as a loop that does not end. */
  method UpdateDayOfWeekAndMonth(months: Option<seq<int>>, days: seq<int>, t: int) returns (r: Result<int, Fault>)
    ensures r == MonthWeekdaySearch(months, days, t, 0)
  {
    var alarm := t;
    var currentMonth := Month(alarm);
    var currentDayOfWeek := DayOfWeek(alarm);
    var n := 0;
    while !CachedMonthWeekdayAccepted(months, currentMonth, currentDayOfWeek, days)
      invariant 0 <= n <= RoundBound
      invariant MonthWeekdaySearch(months, days, alarm, n) == MonthWeekdaySearch(months, days, t, 0)
      invariant currentMonth == Month(alarm) && currentDayOfWeek == DayOfWeek(alarm)
      decreases RoundBound - n
    {
      if n == RoundBound {
        MonthWeekdaySearchRound(months, days, alarm, n);
        return Failure(Diverges);
      }
      var round;
      round, currentMonth, currentDayOfWeek := DayOfWeekRound(months, days, alarm, currentMonth, currentDayOfWeek, n);
      if round.Failure? {
        return Failure(round.error);
      }
      alarm := round.value;
      n := n + 1;
    }
    MonthWeekdaySearchStops(months, days, alarm, n);
    return Success(alarm);
  }

  // ---------------------------------------------------------------- nextAlarm

  /**
   * Where nextAlarm's search starts: one minute after the alarm when that is later than the
   * clock, else the clock; seconds and milliseconds zeroed, then put on the one-minute grid
   * by checkDateAlarm.
   */
  function SearchStart(alarmTime: int, now: int): int
  {
    var t := if alarmTime > now then AddMinutes(alarmTime, 1) else now;
    Checked(SetMillisecond(SetSecond(t, 0), 0), 1, now)
  }

  /** The minute step, then the hour step (which keeps the minute it found). */
  function TimeStep(f: CronFields, t: int): Result<int, Fault>
  {
    var minuteOffset :- FieldOffset(Minute(t), MinMinute, MaxMinute, f.minutes);
    var t1 := AddMinutes(t, minuteOffset);
    var hourOffset :- FieldOffset(HourOfDay(t1), MinHour, MaxHour, f.hours);
    Success(AddHours(t1, hourOffset))
  }

  /**
   * The day step: with both day fields restricted, the earlier of the two searches (the
   * day-of-week one on a tie); with one restricted, its search; with none, no change.
   */
  function DayStep(f: CronFields, t: int): Result<int, Fault>
  {
    var byMonthDay :- Restricted(f.daysOfMonth);
    var byWeekday :- Restricted(f.daysOfWeek);
    if byMonthDay && byWeekday then
      var weekdayAlarm :- MonthWeekdaySearch(f.months, f.daysOfWeek.value, t, 0);
      var monthDayAlarm :- MonthDaySearch(f.months, f.daysOfMonth.value, t, 0);
      Success(if monthDayAlarm < weekdayAlarm then monthDayAlarm else weekdayAlarm)
    else if byWeekday then MonthWeekdaySearch(f.months, f.daysOfWeek.value, t, 0)
    else if byMonthDay then MonthDaySearch(f.months, f.daysOfMonth.value, t, 0)
    else Success(t)
  }

  /** What nextAlarm computes for the fields f. */
  function CronNext(f: CronFields, alarmTime: int, now: int): Result<int, Fault>
  {
    var t :- TimeStep(f, SearchStart(alarmTime, now));
    DayStep(f, t)
  }

  /** nextAlarm of a CronAlarm, with `now` the clock reading. */
  method NextAlarm(f: CronFields, alarmTime: int, now: int) returns (r: Result<int, Fault>)
    ensures r == CronNext(f, alarmTime, now)
  {
    var nextAlarm := now;
    if alarmTime > nextAlarm {
      nextAlarm := AddMinutes(alarmTime, 1);
    }
    nextAlarm := SetSecond(nextAlarm, 0);
    nextAlarm := SetMillisecond(nextAlarm, 0);
    nextAlarm := CheckDateAlarm(nextAlarm, 1, now);
    var current := Minute(nextAlarm);
    var offset :- FieldOffset(current, MinMinute, MaxMinute, f.minutes);
    nextAlarm := AddMinutes(nextAlarm, offset);
    current := HourOfDay(nextAlarm);
    offset :- FieldOffset(current, MinHour, MaxHour, f.hours);
    nextAlarm := AddHours(nextAlarm, offset);
    assert TimeStep(f, SearchStart(alarmTime, now)) == Success(nextAlarm);
    var byMonthDay :- Restricted(f.daysOfMonth);
    var byWeekday :- Restricted(f.daysOfWeek);
    if byMonthDay && byWeekday {
      var weekdayAlarm :- UpdateDayOfWeekAndMonth(f.months, f.daysOfWeek.value, nextAlarm);
      var monthDayAlarm :- UpdateDayOfMonthAndMonth(f.months, f.daysOfMonth.value, nextAlarm);
      if monthDayAlarm < weekdayAlarm {
        nextAlarm := monthDayAlarm;
      } else {
        nextAlarm := weekdayAlarm;
      }
    } else if byWeekday {
      nextAlarm :- UpdateDayOfWeekAndMonth(f.months, f.daysOfWeek.value, nextAlarm);
    } else if byMonthDay {
      nextAlarm :- UpdateDayOfMonthAndMonth(f.months, f.daysOfMonth.value, nextAlarm);
    }
    return Success(nextAlarm);
  }

  // ---------------------------------------------------------------- laws of nextAlarm

  /**
   * The search starts on a whole minute, not before the clock with its seconds set to 2, and
   * after a previous alarm that is still ahead of the clock.
   */
  lemma SearchStartBounds(alarmTime: int, now: int)
    ensures var s := SearchStart(alarmTime, now);
      s % MillisPerMinute == 0 && SetSecond(now, 2) <= s && (alarmTime > now ==> alarmTime < s)
  {
    var t := if alarmTime > now then AddMinutes(alarmTime, 1) else now;
    var u := SetMillisecond(SetSecond(t, 0), 0);
    ZeroSecondsFields(t);
    CheckedOnWholeMinute(u, 1, now);
  }

  /**
   * On a field whose values are the wildcard or lie in 0..max, the offset from a value in
   * 0..max exists exactly when the field is not empty, is not negative, and leads (going round
   * the range) to an accepted value.
   */
  lemma FieldStepLands(field: Option<seq<int>>, max: int, current: int)
    requires 0 <= current <= max && WithinRange(field, 0, max)
    ensures var off := FieldOffset(current, 0, max, field);
      (off.Success? <==> 0 < |field.value|) &&
      (off.Success? ==> 0 <= off.value && Accepts(field, (current + off.value) % (max + 1)))
  {
    var values := field.value;
    var off := FieldOffset(current, 0, max, field);
    if 0 < |values| && !IsWildcard(values) {
      var safe := Discarded(values, max);
      assert values[0] <= max;
      assert 0 < |safe|;
      OffsetLands(current, 0, max, values);
      var a := Advance(current, off.value, 0, max);
      assert a in values;
      assert 0 <= a <= max;
      assert (current + off.value) % (max + 1) == a by {
        if current + off.value > max {
          DivMod(1, a, max + 1);
        } else {
          DivMod(0, a, max + 1);
        }
      }
    }
  }

  /**
   * On minute and hour fields whose values are the wildcard or in range, the minute and hour
   * steps fail only on an empty field; otherwise they move forward to an instant whose minute
   * and hour are accepted.
   */
  lemma TimeStepLands(f: CronFields, t: int)
    requires WithinRange(f.minutes, MinMinute, MaxMinute) && WithinRange(f.hours, MinHour, MaxHour)
    ensures var r := TimeStep(f, t);
      (r.Success? <==> 0 < |f.minutes.value| && 0 < |f.hours.value|) &&
      (r.Success? ==> t <= r.value && Accepts(f.minutes, Minute(r.value)) && Accepts(f.hours, HourOfDay(r.value)))
  {
    FieldStepLands(f.minutes, MaxMinute, Minute(t));
    var m := FieldOffset(Minute(t), MinMinute, MaxMinute, f.minutes);
    if m.Success? {
      var t1 := AddMinutes(t, m.value);
      AddMinutesMinute(t, m.value);
      FieldStepLands(f.hours, MaxHour, HourOfDay(t1));
      var h := FieldOffset(HourOfDay(t1), MinHour, MaxHour, f.hours);
      if h.Success? {
        AddHoursFields(t1, h.value);
      }
    }
  }

  /** The minute and hour steps keep an instant on the whole-minute grid. */
  lemma TimeStepOnGrid(f: CronFields, t: int)
    requires t % MillisPerMinute == 0
    ensures var r := TimeStep(f, t); r.Success? ==> r.value % MillisPerMinute == 0
  {
    var m := FieldOffset(Minute(t), MinMinute, MaxMinute, f.minutes);
    if m.Success? {
      var t1 := AddMinutes(t, m.value);
      ShiftKeepsGrid(t, m.value);
      var h := FieldOffset(HourOfDay(t1), MinHour, MaxHour, f.hours);
      if h.Success? {
        assert AddHours(t1, h.value) == t1 + (h.value * 60) * MillisPerMinute;
        ShiftKeepsGrid(t1, h.value * 60);
      }
    }
  }

  /**
   * The day step reads days of month first, then days of week: a null array raises
   * NullPointerException and an empty one ArrayIndexOutOfBoundsException.
   */
  lemma DayStepFaults(f: CronFields, t: int)
    ensures f.daysOfMonth.None? ==> DayStep(f, t) == Failure(NullPointer)
    ensures f.daysOfMonth == Some([]) ==> DayStep(f, t) == Failure(IndexOutOfBounds)
    ensures Restricted(f.daysOfMonth).Success? && f.daysOfWeek.None? ==> DayStep(f, t) == Failure(NullPointer)
    ensures Restricted(f.daysOfMonth).Success? && f.daysOfWeek == Some([]) ==> DayStep(f, t) == Failure(IndexOutOfBounds)
  {
  }

  /**
   * What the day step lands on: with neither day field restricted the instant is left as it is
   * (the month field is then not consulted); with one restricted, an instant whose month is
   * accepted and whose day is accepted by that field; with both, an instant whose month is
   * accepted and whose day is accepted by at least one of them.
   */
  lemma DayStepLands(f: CronFields, t: int)
    ensures var r := DayStep(f, t);
      Restricted(f.daysOfMonth) == Success(false) && Restricted(f.daysOfWeek) == Success(false) ==> r == Success(t)
    ensures var r := DayStep(f, t);
      r.Success? && !IsRestricted(f.daysOfMonth) && IsRestricted(f.daysOfWeek) ==>
        Accepts(f.months, Month(r.value)) && IsIn(DayOfWeek(r.value), f.daysOfWeek.value)
    ensures var r := DayStep(f, t);
      r.Success? && IsRestricted(f.daysOfMonth) && !IsRestricted(f.daysOfWeek) ==>
        Accepts(f.months, Month(r.value)) && IsInDay(DayOfMonth(r.value), f.daysOfMonth.value, ActualMaximumDayOfMonth(r.value))
    ensures var r := DayStep(f, t);
      r.Success? && IsRestricted(f.daysOfMonth) && IsRestricted(f.daysOfWeek) ==>
        Accepts(f.months, Month(r.value)) &&
        (IsIn(DayOfWeek(r.value), f.daysOfWeek.value) ||
         IsInDay(DayOfMonth(r.value), f.daysOfMonth.value, ActualMaximumDayOfMonth(r.value)))
  {
    DayStepCandidates(f, t);
    if IsRestricted(f.daysOfWeek) {
      MonthWeekdaySearchLands(f.months, f.daysOfWeek.value, t);
    }
    if IsRestricted(f.daysOfMonth) {
      MonthDaySearchLands(f.months, f.daysOfMonth.value, t);
    }
  }

  /**
   * With both day fields restricted, the day step ends when both searches end, and picks the
   * earlier of their results.
   */
  lemma DayStepEarlier(f: CronFields, t: int)
    requires IsRestricted(f.daysOfMonth) && IsRestricted(f.daysOfWeek)
    ensures var w := MonthWeekdaySearch(f.months, f.daysOfWeek.value, t, 0);
      var m := MonthDaySearch(f.months, f.daysOfMonth.value, t, 0);
      var r := DayStep(f, t);
      (r.Success? <==> w.Success? && m.Success?) &&
      (r.Success? ==> r.value <= w.value && r.value <= m.value && (r.value == w.value || r.value == m.value))
  {
  }

  /** The day step leaves the instant as it is or takes the result of one of the two searches. */
  lemma DayStepCandidates(f: CronFields, t: int)
    ensures var r := DayStep(f, t);
      r.Success? ==>
        r.value == t ||
        (IsRestricted(f.daysOfWeek) && MonthWeekdaySearch(f.months, f.daysOfWeek.value, t, 0) == r) ||
        (IsRestricted(f.daysOfMonth) && MonthDaySearch(f.months, f.daysOfMonth.value, t, 0) == r)
  {
  }

  /** The day step keeps the time of day. */
  lemma DayStepKeepsTime(f: CronFields, t: int)
    ensures var r := DayStep(f, t); r.Success? ==> MillisOfDay(r.value) == MillisOfDay(t)
  {
    DayStepCandidates(f, t);
    if IsRestricted(f.daysOfWeek) {
      MonthWeekdaySearchKeepsTime(f.months, f.daysOfWeek.value, t);
    }
    if IsRestricted(f.daysOfMonth) {
      MonthDaySearchKeepsTime(f.months, f.daysOfMonth.value, t);
    }
  }

  /** On lower-bounded month and day fields the day step never moves backwards. */
  lemma DayStepForward(f: CronFields, t: int)
    requires LowerBounded(f.months, MinMonth)
    requires LowerBounded(f.daysOfMonth, MinDayOfMonth) && LowerBounded(f.daysOfWeek, MinDayOfWeek)
    ensures var r := DayStep(f, t); r.Success? ==> t <= r.value
  {
    DayStepCandidates(f, t);
    if IsRestricted(f.daysOfWeek) {
      MonthWeekdaySearchForward(f.months, f.daysOfWeek.value, t);
    }
    if IsRestricted(f.daysOfMonth) {
      MonthDaySearchForward(f.months, f.daysOfMonth.value, t);
    }
  }

  /** nextAlarm always lands on a whole minute: seconds and milliseconds are zero. */
  lemma CronNextOnWholeMinute(f: CronFields, alarmTime: int, now: int)
    ensures var r := CronNext(f, alarmTime, now);
      r.Success? ==> Second(r.value) == 0 && Millisecond(r.value) == 0
  {
    var s := SearchStart(alarmTime, now);
    SearchStartBounds(alarmTime, now);
    TimeStepOnGrid(f, s);
    var t := TimeStep(f, s);
    if t.Success? {
      DayStepKeepsTime(f, t.value);
      var r := DayStep(f, t.value);
      if r.Success? {
        MinuteGrid(t.value);
        MinuteGrid(r.value);
        WholeMinuteFields(r.value);
      }
    }
  }

  /**
   * On minute and hour fields within their ranges, nextAlarm fails only on an empty minute or
   * hour field or in the day step, and its result has an accepted minute and hour.
   */
  lemma CronNextTimeAccepted(f: CronFields, alarmTime: int, now: int)
    requires WithinRange(f.minutes, MinMinute, MaxMinute) && WithinRange(f.hours, MinHour, MaxHour)
    ensures var r := CronNext(f, alarmTime, now);
      (r.Failure? <==> |f.minutes.value| == 0 || |f.hours.value| == 0 ||
                       (TimeStep(f, SearchStart(alarmTime, now)).Success? &&
                        DayStep(f, TimeStep(f, SearchStart(alarmTime, now)).value).Failure?)) &&
      (r.Success? ==> Accepts(f.minutes, Minute(r.value)) && Accepts(f.hours, HourOfDay(r.value)))
  {
    var s := SearchStart(alarmTime, now);
    TimeStepLands(f, s);
    var t := TimeStep(f, s);
    if t.Success? {
      DayStepKeepsTime(f, t.value);
    }
  }

  /**
   * On fields with no value below their range, nextAlarm is not before the clock (seconds set
   * to 2) and comes after a previous alarm that was still ahead of the clock.
   */
  lemma CronNextForward(f: CronFields, alarmTime: int, now: int)
    requires LowerBounded(f.minutes, MinMinute) && LowerBounded(f.hours, MinHour) && LowerBounded(f.months, MinMonth)
    requires LowerBounded(f.daysOfMonth, MinDayOfMonth) && LowerBounded(f.daysOfWeek, MinDayOfWeek)
    ensures var r := CronNext(f, alarmTime, now);
      r.Success? ==> SetSecond(now, 2) <= r.value && (alarmTime > now ==> alarmTime < r.value)
  {
    var s := SearchStart(alarmTime, now);
    SearchStartBounds(alarmTime, now);
    TimeStepForward(f, s);
    var t := TimeStep(f, s);
    if t.Success? {
      DayStepForward(f, t.value);
    }
  }

  /** On lower-bounded minute and hour fields the minute and hour steps never move backwards. */
  lemma TimeStepForward(f: CronFields, t: int)
    requires LowerBounded(f.minutes, MinMinute) && LowerBounded(f.hours, MinHour)
    ensures var r := TimeStep(f, t); r.Success? ==> t <= r.value
  {
    var m := FieldOffset(Minute(t), MinMinute, MaxMinute, f.minutes);
    if m.Success? {
      if !IsWildcard(f.minutes.value) {
        OffsetLands(Minute(t), MinMinute, MaxMinute, f.minutes.value);
      }
      var t1 := AddMinutes(t, m.value);
      var h := FieldOffset(HourOfDay(t1), MinHour, MaxHour, f.hours);
      if h.Success? && !IsWildcard(f.hours.value) {
        OffsetLands(HourOfDay(t1), MinHour, MaxHour, f.hours.value);
      }
    }
  }
  /**
   * The offset search assumes an ascending list: with minutes {5, 3} at minute 4 the minute
   * step wraps to the first value, 5 in the next hour, passing over minute 5 of this hour.
   */
  lemma UnsortedMinutesOvershoot()
    ensures FieldOffset(4, MinMinute, MaxMinute, Some([5, 3])) == Success(61)
    ensures FieldOffset(4, MinMinute, MaxMinute, Some([3, 5])) == Success(1)
  {
    assert Discarded([5, 3], MaxMinute) == [5, 3] by {
      assert Discarded([3], MaxMinute) == [3];
    }
    assert Discarded([3, 5], MaxMinute) == [3, 5] by {
      assert Discarded([5], MaxMinute) == [5];
    }
  }

  // ---------------------------------------------------------------- getCronString

  /** getCronString: each field through arrToString, with a single space between neighbours. */
  function CronString(f: CronFields): string
  {
    Join([ListText(f.minutes), ListText(f.hours), ListText(f.daysOfMonth), ListText(f.months), ListText(f.daysOfWeek)], " ")
  }

  /** getCronString, appending to a StringBuffer field by field. */
  method GetCronString(f: CronFields) returns (s: string)
    ensures s == CronString(f)
  {
    var minutes := ArrToString(f.minutes);
    var hours := ArrToString(f.hours);
    var daysOfMonth := ArrToString(f.daysOfMonth);
    var months := ArrToString(f.months);
    var daysOfWeek := ArrToString(f.daysOfWeek);
    s := minutes + " " + hours + " " + daysOfMonth + " " + months + " " + daysOfWeek;
    JoinFive(minutes, hours, daysOfMonth, months, daysOfWeek);
  }

  /** A field holding exactly one value that fits in an int. */
  predicate SingleValued(field: Option<seq<int>>)
  {
    field.Some? && |field.value| == 1 && IsInt32(field.value[0])
  }

  /** A non-empty text without blanks. */
  predicate Word(s: string)
  {
    0 < |s| && NoneOf(s, Blanks)
  }

  /** A numeral is a word. */
  lemma NumeralIsWord(n: int)
    ensures Word(IntToString(n))
  {
    var s := IntToString(n);
    forall i | 0 <= i < |s| ensures s[i] !in Blanks {
      assert IsDigit(s[i]) || s[i] == '-';
    }
  }

  /** A single-valued field prints as its one numeral, which parses back to the value. */
  lemma SingleValuedText(field: Option<seq<int>>)
    requires SingleValued(field)
    ensures ListText(field) == IntToString(field.value[0])
    ensures Word(ListText(field)) && ParseInt(ListText(field)) == Some(field.value[0])
  {
    assert Numerals(field.value) == [IntToString(field.value[0])];
    NumeralIsWord(field.value[0]);
    ParseIntToString(field.value[0]);
  }

  /** Five words joined by single spaces split at the blanks back into the five words. */
  lemma FiveWords(a: string, b: string, c: string, d: string, e: string)
    requires Word(a) && Word(b) && Word(c) && Word(d) && Word(e)
    ensures Tokens(Join([a, b, c, d, e], " "), Blanks) == [a, b, c, d, e]
  {
    var parts := [a, b, c, d, e];
    forall k | 0 <= k < |parts|
      ensures 0 < |parts[k]| && NoneOf(parts[k], Blanks)
    {
    }
    TokensOfJoin(parts, " ", Blanks);
  }

  /**
   * When every field holds a single value, the cron string splits at its blanks into five
   * tokens, each of which parses back to its field's value.
   */
  lemma CronStringRoundTrip(f: CronFields)
    requires SingleValued(f.minutes) && SingleValued(f.hours) && SingleValued(f.daysOfMonth)
    requires SingleValued(f.months) && SingleValued(f.daysOfWeek)
    ensures var ts := Tokens(CronString(f), Blanks);
      |ts| == 5 && ParseInt(ts[0]) == Some(f.minutes.value[0]) && ParseInt(ts[1]) == Some(f.hours.value[0]) &&
      ParseInt(ts[2]) == Some(f.daysOfMonth.value[0]) && ParseInt(ts[3]) == Some(f.months.value[0]) &&
      ParseInt(ts[4]) == Some(f.daysOfWeek.value[0])
  {
    SingleValuedText(f.minutes);
    SingleValuedText(f.hours);
    SingleValuedText(f.daysOfMonth);
    SingleValuedText(f.months);
    SingleValuedText(f.daysOfWeek);
    FiveWords(ListText(f.minutes), ListText(f.hours), ListText(f.daysOfMonth), ListText(f.months), ListText(f.daysOfWeek));
  }

  /** arrToString of a two-value array: the two numerals separated by ", ". */
  lemma PairText(values: seq<int>)
    requires |values| == 2
    ensures ListText(Some(values)) == IntToString(values[0]) + ", " + IntToString(values[1])
  {
    var ns := Numerals(values);
    assert ns == [IntToString(values[0]), IntToString(values[1])];
    assert ns[1..] == [ns[1]];
    assert Join(ns[1..], ", ") == ns[1];
    assert Join(ns, ", ") == ns[0] + ", " + Join(ns[1..], ", ");
  }

  lemma JoinCons(p: string, rest: seq<string>, sep: string)
    requires 0 < |rest|
    ensures Join([p] + rest, sep) == p + sep + Join(rest, sep)
  {
    assert ([p] + rest)[1..] == rest;
  }

  /** Cutting "a, b rest" after the comma instead of before "rest". */
  lemma CommaRegroup(a: string, b: string, rest: string)
    ensures (a + ", " + b) + " " + rest == (a + ",") + " " + (b + " " + rest)
  {
    assert ", " == "," + " ";
  }

  /** A word followed by a space is the first token, and the rest splits on its own. */
  lemma WordThenSpace(p: string, rest: string)
    requires Word(p)
    ensures Tokens(p + " " + rest, Blanks) == [p] + Tokens(rest, Blanks)
  {
    var s := p + " " + rest;
    RunLengthOf(p, " " + rest, Blanks);
    assert s == p + (" " + rest);
    assert s[..|p|] == p && s[|p|..] == " " + rest;
    TokensSkip(" ", rest, Blanks);
  }

  /** The cron string of a two-value minute field, cut after the comma arrToString puts in it. */
  lemma CronStringPairShape(f: CronFields)
    requires f.minutes.Some? && |f.minutes.value| == 2
    ensures CronString(f) == (IntToString(f.minutes.value[0]) + ",") + " " +
      Join([IntToString(f.minutes.value[1]), ListText(f.hours), ListText(f.daysOfMonth), ListText(f.months), ListText(f.daysOfWeek)], " ")
  {
    var a, b := IntToString(f.minutes.value[0]), IntToString(f.minutes.value[1]);
    var h, d, m, w := ListText(f.hours), ListText(f.daysOfMonth), ListText(f.months), ListText(f.daysOfWeek);
    PairText(f.minutes.value);
    assert [ListText(f.minutes), h, d, m, w] == [ListText(f.minutes)] + [h, d, m, w];
    assert [b, h, d, m, w] == [b] + [h, d, m, w];
    JoinCons(ListText(f.minutes), [h, d, m, w], " ");
    JoinCons(b, [h, d, m, w], " ");
    CommaRegroup(a, b, Join([h, d, m, w], " "));
  }

  /**
   * arrToString separates the values of a field with ", ", so a minute field with two values
   * and single-valued other fields gives six blank-separated tokens instead of five.
   */
  lemma CronStringListSplits(f: CronFields)
    requires f.minutes.Some? && |f.minutes.value| == 2
    requires SingleValued(f.hours) && SingleValued(f.daysOfMonth) && SingleValued(f.months) && SingleValued(f.daysOfWeek)
    ensures |Tokens(CronString(f), Blanks)| == 6
  {
    var a, b := IntToString(f.minutes.value[0]), IntToString(f.minutes.value[1]);
    var h, d, m, w := ListText(f.hours), ListText(f.daysOfMonth), ListText(f.months), ListText(f.daysOfWeek);
    SingleValuedText(f.hours);
    SingleValuedText(f.daysOfMonth);
    SingleValuedText(f.months);
    SingleValuedText(f.daysOfWeek);
    NumeralIsWord(f.minutes.value[0]);
    NumeralIsWord(f.minutes.value[1]);
    var first := a + ",";
    assert Word(first) by {
      forall i | 0 <= i < |first| ensures first[i] !in Blanks {
        if i < |a| { assert first[i] == a[i]; }
      }
    }
    CronStringPairShape(f);
    WordThenSpace(first, Join([b, h, d, m, w], " "));
    FiveWords(b, h, d, m, w);
  }
}
