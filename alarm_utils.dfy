/**
 * The field-list primitives every recurrence rule is built on. A field list is an int array
 * of accepted values of one calendar field; the list {-1} (and, for membership, the empty
 * list) accepts everything, and 32 in a day-of-month list stands for the month's last day.
 * Java arrays are modelled as sequences (null arrays only where the source tests for null).
 */
module AlarmUtils {
  import opened Wrappers
  import opened JavaLang

  const MinDayOfWeek: int := 1
  const MaxDayOfWeek: int := 7
  const MinDayOfMonth: int := 1
  const MinHour: int := 0
  const MaxHour: int := 23
  const MinMonth: int := 0
  const MaxMonth: int := 11
  const LastDayOfMonth: int := 32

  /** The value -1 in the first position of a list means "every value" (a `*` field). */
  const Any: int := -1

  /**
   * Runtime failures of the scheduling code: an ArrayIndexOutOfBoundsException, a
   * NullPointerException, or a loop that never exits.
   */
  datatype Fault = IndexOutOfBounds | NullPointer | Diverges

  predicate IsWildcard(values: seq<int>)
  {
    0 < |values| && values[0] == Any
  }

  predicate Ascending(s: seq<int>)
  {
    forall i, j | 0 <= i < j < |s| :: s[i] <= s[j]
  }

  predicate AtLeast(s: seq<int>, lo: int)
  {
    forall i | 0 <= i < |s| :: lo <= s[i]
  }

  predicate AtMost(s: seq<int>, hi: int)
  {
    forall i | 0 <= i < |s| :: s[i] <= hi
  }

  // ---------------------------------------------------------------- membership

  function Occurs(find: int, values: seq<int>, i: nat): (r: bool)
    requires i <= |values|
    ensures r <==> find in values[i..]
    decreases |values| - i
  {
    if i == |values| then false
    else if find == values[i] then true
    else
      assert values[i..] == [values[i]] + values[i + 1..];
      Occurs(find, values, i + 1)
  }

  /** isIn(find, values): everything is accepted by an empty or wildcard list, otherwise the listed values. */
  function IsIn(find: int, values: seq<int>): (r: bool)
    ensures r <==> |values| == 0 || values[0] == Any || find in values
  {
    if |values| == 0 then true
    else if values[0] == Any then true
    else
      assert values[0..] == values;
      Occurs(find, values, 0)
  }

  function OccursDay(find: int, values: seq<int>, maxDayOfMonth: int, i: nat): (r: bool)
    requires i <= |values|
    ensures r <==> find in values[i..] || (LastDayOfMonth in values[i..] && find == maxDayOfMonth)
    decreases |values| - i
  {
    if i == |values| then false
    else if find == values[i] then true
    else if values[i] == LastDayOfMonth && find == maxDayOfMonth then true
    else
      assert values[i..] == [values[i]] + values[i + 1..];
      OccursDay(find, values, maxDayOfMonth, i + 1)
  }

  /** isIn(find, values, maxDayOfMonth): as IsIn, and 32 in the list also accepts the month's last day. */
  function IsInDay(find: int, values: seq<int>, maxDayOfMonth: int): (r: bool)
    ensures r <==> |values| == 0 || values[0] == Any || find in values
                   || (LastDayOfMonth in values && find == maxDayOfMonth)
  {
    if |values| == 0 then true
    else if values[0] == Any then true
    else
      assert values[0..] == values;
      OccursDay(find, values, maxDayOfMonth, 0)
  }

  // ---------------------------------------------------------------- offsets

  /** last(values); an empty array raises ArrayIndexOutOfBoundsException. */
  function Last(values: seq<int>): (r: Result<int, Fault>)
    ensures r.Failure? <==> |values| == 0
    ensures r.Success? ==> r == Success(values[|values| - 1])
  {
    if |values| == 0 then Failure(IndexOutOfBounds) else Success(values[|values| - 1])
  }

  /** Position of the first element after position i that is greater than x (|s| when there is none). */
  function FirstAbove(x: int, s: seq<int>, i: nat): (k: nat)
    requires i <= |s|
    ensures i <= k <= |s|
    ensures k < |s| ==> x < s[k]
    ensures forall j | i <= j < k :: s[j] <= x
    decreases |s| - i
  {
    if i == |s| then i else if x < s[i] then i else FirstAbove(x, s, i + 1)
  }

  /** The value `d` steps after `current` in the cyclic range min..max (for 0 <= d <= max - min + 1). */
  function Advance(current: int, d: int, min: int, max: int): int
  {
    if current + d > max then current + d - (max - min + 1) else current + d
  }

  /**
   * getOffsetToNext: how far to move `current` forward to reach a listed value strictly after
   * it; the wildcard gives 1, and past the last listed value it wraps from max to the first.
   */
  function OffsetToNext(current: int, min: int, max: int, values: seq<int>): (r: Result<int, Fault>)
    ensures r.Failure? <==> |values| == 0
    ensures IsWildcard(values) ==> r == Success(1)
    ensures 0 < |values| && !IsWildcard(values) && current >= values[|values| - 1] ==>
              r == Success((max - current + 1) + (values[0] - min))
    ensures 0 < |values| && !IsWildcard(values) && current < values[|values| - 1] ==>
              r.Success? && 0 < r.value &&
              exists k | 0 <= k < |values| :: values[k] == current + r.value && forall j | 0 <= j < k :: values[j] <= current
  {
    if |values| == 0 then Failure(IndexOutOfBounds)
    else if values[0] == Any then Success(1)
    else if current >= Last(values).value then Success((max - current + 1) + (values[0] - min))
    else
      var k := FirstAbove(current, values, 0);
      Success(values[k] - current)
  }

  /**
   * Offsets over the months 0..11 with the list {3, 5, 7, 9}: from 3 the next value is 5; from
   * 9 the search wraps round to 3 of the next year; a one-value list gives a whole turn.
   */
  lemma OffsetToNextExamples()
    ensures OffsetToNext(3, 0, 11, [3, 5, 7, 9]) == Success(2)
    ensures OffsetToNext(9, 0, 11, [3, 5, 7, 9]) == Success(6)
    ensures OffsetToNext(0, 0, 11, [0]) == Success(12)
  {
    assert FirstAbove(3, [3, 5, 7, 9], 1) == 1;
    assert FirstAbove(3, [3, 5, 7, 9], 0) == 1;
  }

  /**
   * discardValuesOverMax as a value: the longest prefix of the list whose elements are all at
   * most max (the whole list when none exceeds it).
   */
  function Discarded(values: seq<int>, max: int): (safe: seq<int>)
    ensures |safe| <= |values| && safe == values[..|safe|]
    ensures AtMost(safe, max)
    ensures |safe| < |values| ==> values[|safe|] > max
  {
    if |values| == 0 || values[0] > max then []
    else
      var rest := Discarded(values[1..], max);
      assert [values[0]] + rest == values[..|rest| + 1];
      [values[0]] + rest
  }

  /** The loop over values.length that reads safeValues[i], which may be the shorter array. */
  function ScanSafe(current: int, safe: seq<int>, n: nat, i: nat): (r: Result<int, Fault>)
    requires i <= n
    ensures i <= |safe| <= n && FirstAbove(current, safe, i) < |safe| ==>
              r == Success(safe[FirstAbove(current, safe, i)] - current)
    decreases n - i
  {
    if i == n then Success(0)
    else if i >= |safe| then Failure(IndexOutOfBounds)
    else if current < safe[i] then Success(safe[i] - current)
    else ScanSafe(current, safe, n, i + 1)
  }

  /**
   * getOffsetToNextOrEqual: 0 when `current` is accepted, otherwise how far to move forward to
   * reach a listed value, ignoring values over max and wrapping from max to min. An empty
   * list, or one whose every value exceeds max, raises ArrayIndexOutOfBoundsException.
   */
  function OffsetToNextOrEqual(current: int, min: int, max: int, values: seq<int>): (r: Result<int, Fault>)
  {
    if |values| == 0 then Failure(IndexOutOfBounds)
    else if values[0] == Any || IsIn(current, values) then Success(0)
    else
      var safe := Discarded(values, max);
      if |safe| == 0 then Failure(IndexOutOfBounds)
      else if current > Last(safe).value then Success((max - current + 1) + (safe[0] - min))
      else
        assert current != safe[|safe| - 1];
        ScanSafe(current, safe, |values|, 0)
  }

  // ---------------------------------------------------------------- laws of the offsets

  /**
   * getOffsetToNextOrEqual fails exactly on an empty list or when nothing is left within max,
   * gives 0 on an accepted value, and otherwise lands on a value within max or wraps.
   */
  lemma OrEqualCases(current: int, min: int, max: int, values: seq<int>)
    ensures var r := OffsetToNextOrEqual(current, min, max, values);
      (r.Failure? <==> |values| == 0 || (!IsWildcard(values) && current !in values && |Discarded(values, max)| == 0)) &&
      (IsWildcard(values) || current in values ==> r == Success(0)) &&
      (r.Success? && !IsWildcard(values) && current !in values ==>
        var safe := Discarded(values, max);
        if current > safe[|safe| - 1] then r.value == (max - current + 1) + (safe[0] - min)
        else current + r.value in safe && 0 < r.value)
  {
  }

  /**
   * For an ascending list within min..max and a current value in that range, getOffsetToNext
   * moves to the nearest listed value strictly after `current`, going round the range at most once.
   */
  lemma OffsetToNextIsNext(current: int, min: int, max: int, values: seq<int>)
    requires 0 < |values| && !IsWildcard(values)
    requires Ascending(values) && AtLeast(values, min) && AtMost(values, max)
    requires min <= current <= max
    ensures var r := OffsetToNext(current, min, max, values);
      r.Success? && 0 < r.value <= max - min + 1 &&
      Advance(current, r.value, min, max) in values &&
      forall d | 0 < d < r.value :: Advance(current, d, min, max) !in values
  {
    var off := OffsetToNext(current, min, max, values).value;
    var n := |values|;
    if current >= values[n - 1] {
      assert Advance(current, off, min, max) == values[0];
    } else {
      var k := FirstAbove(current, values, 0);
      assert k < n;
      assert off == values[k] - current;
    }
  }

  /**
   * For an ascending list of values at least min whose first value is at most max, and a
   * current value in min..max, getOffsetToNextOrEqual succeeds and moves to the nearest accepted
   * value at or after `current`, going round the range at most once; values over max never match.
   */
  lemma OffsetToNextOrEqualIsNext(current: int, min: int, max: int, values: seq<int>)
    requires 0 < |values| && !IsWildcard(values)
    requires Ascending(values) && AtLeast(values, min) && values[0] <= max
    requires min <= current <= max
    ensures var r := OffsetToNextOrEqual(current, min, max, values);
      r.Success? && 0 <= r.value <= max - min &&
      Advance(current, r.value, min, max) in values && Advance(current, r.value, min, max) <= max &&
      forall d | 0 <= d < r.value :: Advance(current, d, min, max) !in values
  {
    var safe := Discarded(values, max);
    assert 0 < |safe| && safe[0] == values[0];
    if current in values {
      IsNextWhenListed(current, min, max, values);
    } else if current > safe[|safe| - 1] {
      IsNextWhenWrapping(current, min, max, values);
    } else {
      IsNextWhenScanning(current, min, max, values);
    }
  }

  /** OffsetToNextOrEqualIsNext on a listed value: no move. */
  lemma IsNextWhenListed(current: int, min: int, max: int, values: seq<int>)
    requires 0 < |values| && min <= current <= max && current in values
    ensures var r := OffsetToNextOrEqual(current, min, max, values);
      r.Success? && 0 <= r.value <= max - min &&
      Advance(current, r.value, min, max) in values && Advance(current, r.value, min, max) <= max &&
      forall d | 0 <= d < r.value :: Advance(current, d, min, max) !in values
  {
    assert OffsetToNextOrEqual(current, min, max, values) == Success(0);
    assert Advance(current, 0, min, max) == current;
  }

  /** OffsetToNextOrEqualIsNext past the last value within max: round to the first value. */
  lemma IsNextWhenWrapping(current: int, min: int, max: int, values: seq<int>)
    requires 0 < |values| && !IsWildcard(values)
    requires Ascending(values) && AtLeast(values, min) && values[0] <= max
    requires min <= current <= max && current !in values
    requires var safe := Discarded(values, max); 0 < |safe| && current > safe[|safe| - 1]
    ensures var r := OffsetToNextOrEqual(current, min, max, values);
      r.Success? && 0 <= r.value <= max - min &&
      Advance(current, r.value, min, max) in values && Advance(current, r.value, min, max) <= max &&
      forall d | 0 <= d < r.value :: Advance(current, d, min, max) !in values
  {
    var off := (max - current + 1) + (values[0] - min);
    assert !IsIn(current, values);
    assert OffsetToNextOrEqual(current, min, max, values) == Success(off);
    OrEqualWraps(current, min, max, values);
  }

  /** OffsetToNextOrEqualIsNext before the last value within max: the first value above. */
  lemma IsNextWhenScanning(current: int, min: int, max: int, values: seq<int>)
    requires 0 < |values| && !IsWildcard(values)
    requires Ascending(values) && AtLeast(values, min)
    requires min <= current <= max && current !in values
    requires var safe := Discarded(values, max); 0 < |safe| && current <= safe[|safe| - 1]
    ensures var r := OffsetToNextOrEqual(current, min, max, values);
      r.Success? && 0 <= r.value <= max - min &&
      Advance(current, r.value, min, max) in values && Advance(current, r.value, min, max) <= max &&
      forall d | 0 <= d < r.value :: Advance(current, d, min, max) !in values
  {
    var safe := Discarded(values, max);
    var k := FirstAbove(current, safe, 0);
    OrEqualScans(current, min, max, values);
    ScanValue(current, min, max, values);
    assert Advance(current, safe[k] - current, min, max) == safe[k];
  }

  /** Before the last value within max, getOffsetToNextOrEqual is the scan's first value above. */
  lemma ScanValue(current: int, min: int, max: int, values: seq<int>)
    requires 0 < |values| && !IsWildcard(values) && current !in values
    requires var safe := Discarded(values, max); 0 < |safe| && current <= safe[|safe| - 1]
    ensures var safe := Discarded(values, max); var k := FirstAbove(current, safe, 0);
      k < |safe| ==> OffsetToNextOrEqual(current, min, max, values) == Success(safe[k] - current)
  {
    var safe := Discarded(values, max);
    assert !IsIn(current, values);
    assert OffsetToNextOrEqual(current, min, max, values) == ScanSafe(current, safe, |values|, 0);
  }

  lemma OrEqualWraps(current: int, min: int, max: int, values: seq<int>)
    requires 0 < |values| && !IsWildcard(values)
    requires Ascending(values) && AtLeast(values, min) && values[0] <= max
    requires min <= current <= max && current !in values
    requires var safe := Discarded(values, max); 0 < |safe| && current > safe[|safe| - 1]
    ensures var off := (max - current + 1) + (values[0] - min);
      0 <= off <= max - min && Advance(current, off, min, max) == values[0] &&
      forall d | 0 <= d < off :: Advance(current, d, min, max) !in values
  {
  }

  lemma OrEqualScans(current: int, min: int, max: int, values: seq<int>)
    requires 0 < |values| && !IsWildcard(values)
    requires Ascending(values) && AtLeast(values, min)
    requires min <= current <= max && current !in values
    requires var safe := Discarded(values, max); 0 < |safe| && current <= safe[|safe| - 1]
    ensures var safe := Discarded(values, max); var k := FirstAbove(current, safe, 0);
      k < |safe| && 0 < safe[k] - current <= max - min && safe[k] in values &&
      forall d | 0 <= d < safe[k] - current :: Advance(current, d, min, max) !in values
  {
    var safe := Discarded(values, max);
    var k := FirstAbove(current, safe, 0);
    assert safe[|safe| - 1] in values;
    assert k < |safe|;
    forall d | 0 <= d < safe[k] - current
      ensures Advance(current, d, min, max) !in values
    {
      assert Advance(current, d, min, max) == current + d;
    }
  }

  /**
   * Whatever the order of the list, a successful getOffsetToNextOrEqual from a value in
   * min..max lands on a listed value, provided no listed value is below min. On a list that
   * is not ascending the wrap can overshoot by a whole turn of the range.
   */
  lemma OffsetLands(current: int, min: int, max: int, values: seq<int>)
    requires AtLeast(values, min) && min <= current <= max
    requires OffsetToNextOrEqual(current, min, max, values).Success?
    ensures var off := OffsetToNextOrEqual(current, min, max, values).value;
      0 <= off < 2 * (max - min + 1) && (IsWildcard(values) || Advance(current, off, min, max) in values)
  {
    var safe := Discarded(values, max);
    if !IsWildcard(values) && current !in values {
      assert safe[0] in values && safe[|safe| - 1] in values;
      if current <= safe[|safe| - 1] {
        var k := FirstAbove(current, safe, 0);
        assert k < |safe|;
        assert safe[k] in values;
        assert OffsetToNextOrEqual(current, min, max, values) == ScanSafe(current, safe, |values|, 0) == Success(safe[k] - current);
      }
    }
  }

  /**
   * When a listed value v lies ahead of `current` without wrapping, getOffsetToNextOrEqual
   * stops at the first listed value on the way, never past v.
   */
  lemma OrEqualWithinRange(current: int, min: int, max: int, values: seq<int>, v: int)
    requires !IsWildcard(values) && Ascending(values) && AtLeast(values, min) && min <= current
    requires v in values && current <= v <= max && current !in values
    ensures var r := OffsetToNextOrEqual(current, min, max, values);
      r.Success? && 0 < r.value <= v - current && current + r.value in values &&
      forall i | 0 <= i < |values| :: values[i] < current || current + r.value <= values[i]
  {
    assert values[0] <= v;
    OffsetToNextOrEqualIsNext(current, min, max, values);
    var off := OffsetToNextOrEqual(current, min, max, values).value;
    NotPast(current, min, max, values, off, v);
    StepWithinRange(current, min, max, values, off);
    NoneBefore(current, min, max, values, off);
  }

  /** A step that stays within max lands on current + off, which is not current itself. */
  lemma StepWithinRange(current: int, min: int, max: int, values: seq<int>, off: int)
    requires 0 <= off && current + off <= max && current !in values
    requires Advance(current, off, min, max) in values
    ensures current + off in values && 0 < off
  {
  }

  /** Within max, the first off steps from current are the values current..current+off-1. */
  lemma NoneBefore(current: int, min: int, max: int, values: seq<int>, off: int)
    requires forall d | 0 <= d < off :: Advance(current, d, min, max) !in values
    requires current + off <= max
    ensures forall i | 0 <= i < |values| :: values[i] < current || current + off <= values[i]
  {
    forall i | 0 <= i < |values|
      ensures values[i] < current || current + off <= values[i]
    {
      assert values[i] in values;
      assert Advance(current, values[i] - current, min, max) == values[i] ||
        values[i] < current || current + off <= values[i];
    }
  }

  /** No listed value among the first off steps, and v listed within max: v is not among them. */
  lemma NotPast(current: int, min: int, max: int, values: seq<int>, off: int, v: int)
    requires forall d | 0 <= d < off :: Advance(current, d, min, max) !in values
    requires v in values && current <= v <= max
    ensures off <= v - current && current + off <= max
  {
    assert Advance(current, v - current, min, max) == v;
  }

  // ---------------------------------------------------------------- new arrays

  /** discardValuesOverMax: scans for the first value over max and copies the part before it. */
  method DiscardValuesOverMax(values: seq<int>, max: int) returns (safe: seq<int>)
    ensures safe == Discarded(values, max)
  {
    var i := 0;
    while i < |values|
      invariant 0 <= i <= |values|
      invariant AtMost(values[..i], max)
    {
      if values[i] > max {
        var copy := new int[i];
        forall j | 0 <= j < i {
          copy[j] := values[j];
        }
        safe := copy[..];
        DiscardedUnique(values, max, safe);
        return;
      }
      i := i + 1;
    }
    safe := values;
    assert values[..i] == values;
    DiscardedUnique(values, max, safe);
  }

  /** Discarded is the only prefix with its three properties. */
  lemma {:induction false} DiscardedUnique(values: seq<int>, max: int, p: seq<int>)
    requires |p| <= |values| && p == values[..|p|]
    requires AtMost(p, max)
    requires |p| < |values| ==> values[|p|] > max
    ensures p == Discarded(values, max)
  {
  }

  /** On an ascending list, the values kept are exactly the listed values up to max. */
  lemma DiscardedAscending(values: seq<int>, max: int)
    requires Ascending(values)
    ensures forall v :: v in Discarded(values, max) <==> v in values && v <= max
  {
    var safe := Discarded(values, max);
    forall v | v in values && v <= max
      ensures v in safe
    {
      var i :| 0 <= i < |values| && values[i] == v;
      assert values[i] == safe[i];
    }
  }

  /**
   * The day list a weekly or monthly alarm keeps: the given days sorted ascending, with the
   * values over max dropped, and {-1} when none is left.
   */
  function NormalizedDays(days: seq<int>, max: int): (r: seq<int>)
    ensures 0 < |r|
  {
    var safe := Discarded(SortInts(days), max);
    if |safe| == 0 then [Any] else safe
  }

  /** Arrays.sort, then discardValuesOverMax, then {-1} in place of an empty result. */
  method NormalizeDays(days: seq<int>, max: int) returns (r: seq<int>)
    ensures r == NormalizedDays(days, max)
  {
    var sorted := SortInts(days);
    r := DiscardValuesOverMax(sorted, max);
    if |r| == 0 {
      r := [Any];
    }
  }

  /**
   * A normalized list is ascending and keeps exactly the given days up to max; it is the
   * wildcard exactly when no day was at most max or the smallest day is -1.
   */
  lemma NormalizedDaysContents(days: seq<int>, max: int)
    requires Any <= max
    ensures var r := NormalizedDays(days, max);
      Ascending(r) && AtMost(r, max) &&
      (r == [Any] || forall v :: v in r <==> v in days && v <= max)
  {
    var sorted := SortInts(days);
    var safe := Discarded(sorted, max);
    DiscardedAscending(sorted, max);
    SameMembers(sorted, days);
    if 0 < |safe| {
      assert NormalizedDays(days, max) == safe;
      PrefixAscending(sorted, |safe|);
    }
  }

  /** Two lists with the same multiset hold the same values. */
  lemma SameMembers(a: seq<int>, b: seq<int>)
    requires multiset(a) == multiset(b)
    ensures forall v :: v in a <==> v in b
  {
    forall v ensures v in a <==> v in b {
      assert v in a <==> v in multiset(a);
      assert v in b <==> v in multiset(b);
    }
  }

  /** A prefix of an ascending list is ascending. */
  lemma PrefixAscending(s: seq<int>, k: nat)
    requires Ascending(s) && k <= |s|
    ensures Ascending(s[..k])
  {
  }

  /** The day list with every 32 replaced by the month's last day. */
  function LastDaySubstituted(days: seq<int>, lastDay: int): (r: seq<int>)
    ensures |r| == |days|
  {
    seq(|days|, i requires 0 <= i < |days| => if days[i] == LastDayOfMonth then lastDay else days[i])
  }

  /**
   * getDaysOfMonth: when 32 is accepted, a copy of the list with each 32 overwritten by the
   * month's last day; otherwise the list itself.
   */
  method GetDaysOfMonth(days: seq<int>, lastDay: int) returns (r: seq<int>)
    ensures r == LastDaySubstituted(days, lastDay)
  {
    if IsIn(LastDayOfMonth, days) {
      var local := new int[|days|];
      forall j | 0 <= j < |days| {
        local[j] := days[j];
      }
      var ii := 0;
      while ii < local.Length
        invariant 0 <= ii <= local.Length == |days|
        invariant forall j | 0 <= j < ii :: local[j] == (if days[j] == LastDayOfMonth then lastDay else days[j])
        invariant forall j | ii <= j < |days| :: local[j] == days[j]
      {
        if local[ii] == LastDayOfMonth {
          local[ii] := lastDay;
        }
        ii := ii + 1;
      }
      r := local[..];
    } else {
      r := days;
    }
  }

  /**
   * On real days of the month (never 32 itself), membership in the substituted list is
   * exactly the three-argument isIn on the original list.
   */
  lemma SubstitutedMembership(find: int, days: seq<int>, lastDay: int)
    requires find != LastDayOfMonth && lastDay != Any
    ensures IsIn(find, LastDaySubstituted(days, lastDay)) == IsInDay(find, days, lastDay)
  {
    var s := LastDaySubstituted(days, lastDay);
    if 0 < |days| && days[0] != Any {
      assert s[0] != Any;
      if find in s {
        var i :| 0 <= i < |s| && s[i] == find;
        assert days[i] == find || (days[i] == LastDayOfMonth && find == lastDay);
      }
      if find in days {
        var i :| 0 <= i < |days| && days[i] == find;
        assert s[i] == find;
      }
      if LastDayOfMonth in days && find == lastDay {
        var i :| 0 <= i < |days| && days[i] == LastDayOfMonth;
        assert s[i] == find;
      }
    }
  }

  // ---------------------------------------------------------------- text

  /** Integer.toString of each element. */
  function Numerals(values: seq<int>): (ts: seq<string>)
    ensures |ts| == |values|
  {
    seq(|values|, i requires 0 <= i < |values| => IntToString(values[i]))
  }

  /** The text arrToString gives: "null" for a null array, else the values separated by ", ". */
  function ListText(values: Option<seq<int>>): string
  {
    match values
    case None => "null"
    case Some(v) => Join(Numerals(v), ", ")
  }

  /** arrToString, appending to a StringBuilder element by element. */
  method ArrToString(values: Option<seq<int>>) returns (s: string)
    ensures s == ListText(values)
  {
    if values.None? {
      return "null";
    }
    var v := values.value;
    if |v| == 0 {
      return "";
    }
    var parts := Numerals(v);
    var builder := "";
    var i := 0;
    while i < |v| - 1
      invariant 0 <= i <= |v| - 1
      invariant builder + Join(parts[i..], ", ") == Join(parts, ", ")
    {
      assert parts[i] == IntToString(v[i]);
      JoinStep(parts, i, ", ");
      AppendThree(builder, parts[i], ", ", Join(parts[i + 1..], ", "));
      builder := builder + IntToString(v[i]) + ", ";
      i := i + 1;
    }
    assert parts[i..] == [parts[i]];
    s := builder + IntToString(v[|v| - 1]);
  }

  /** Splitting arrToString's text at commas and spaces and parsing each piece gives the array back. */
  lemma ListTextRoundTrip(values: seq<int>)
    requires forall i | 0 <= i < |values| :: IsInt32(values[i])
    ensures var ts := Tokens(ListText(Some(values)), {',', ' '});
      |ts| == |values| && forall i | 0 <= i < |values| :: ParseInt(ts[i]) == Some(values[i])
  {
    var parts := Numerals(values);
    var delims := {',', ' '};
    forall k | 0 <= k < |parts|
      ensures 0 < |parts[k]| && NoneOf(parts[k], delims)
    {
      assert parts[k] == IntToString(values[k]);
    }
    if |parts| > 0 {
      TokensOfJoin(parts, ", ", delims);
    }
    forall i | 0 <= i < |values|
      ensures ParseInt(parts[i]) == Some(values[i])
    {
      ParseIntToString(values[i]);
    }
  }

  // ---------------------------------------------------------------- sorting

  /** x placed before the first value of an ascending list that is not below it. */
  function Insert(x: int, s: seq<int>): seq<int>
  {
    if |s| == 0 || x <= s[0] then [x] + s else [s[0]] + Insert(x, s[1..])
  }

  /** Insertion keeps a list ascending and adds exactly the one value. */
  lemma InsertSorted(x: int, s: seq<int>)
    requires Ascending(s)
    ensures Ascending(Insert(x, s)) && multiset(Insert(x, s)) == multiset(s) + multiset{x}
  {
    InsertAscending(x, s);
    InsertMultiset(x, s);
  }

  lemma {:induction false} InsertAscending(x: int, s: seq<int>)
    requires Ascending(s)
    ensures Ascending(Insert(x, s))
  {
    if |s| == 0 || x <= s[0] {
      AscendingCons(x, s);
    } else {
      AscendingTail(s);
      InsertAscending(x, s[1..]);
      InsertAtLeast(x, s[1..], s[0]);
      AscendingCons(s[0], Insert(x, s[1..]));
    }
  }

  lemma {:induction false} InsertMultiset(x: int, s: seq<int>)
    ensures multiset(Insert(x, s)) == multiset(s) + multiset{x}
  {
    if |s| > 0 && x > s[0] {
      InsertMultiset(x, s[1..]);
      assert s == [s[0]] + s[1..];
    }
  }

  /** The tail of an ascending list is ascending and bounded below by the head. */
  lemma AscendingTail(s: seq<int>)
    requires 0 < |s| && Ascending(s)
    ensures Ascending(s[1..]) && AtLeast(s[1..], s[0])
  {
    forall i | 0 <= i < |s| - 1
      ensures s[0] <= s[1..][i]
    {
      assert s[1..][i] == s[i + 1];
    }
  }

  lemma {:induction false} InsertAtLeast(x: int, s: seq<int>, lo: int)
    requires AtLeast(s, lo) && lo <= x
    ensures AtLeast(Insert(x, s), lo)
  {
    if |s| > 0 && x > s[0] {
      InsertAtLeast(x, s[1..], lo);
    }
  }

  lemma AscendingCons(a: int, t: seq<int>)
    requires Ascending(t) && AtLeast(t, a)
    ensures Ascending([a] + t)
  {
    var s := [a] + t;
    forall i, j | 0 <= i < j < |s|
      ensures s[i] <= s[j]
    {
      assert s[j] == t[j - 1];
      if 0 < i {
        assert s[i] == t[i - 1];
      }
    }
  }

  /** Arrays.sort on an int array: the same values in ascending order. */
  function SortInts(s: seq<int>): (r: seq<int>)
    ensures Ascending(r) && multiset(r) == multiset(s)
  {
    if |s| == 0 then []
    else
      assert s == [s[0]] + s[1..];
      InsertSorted(s[0], SortInts(s[1..]));
      Insert(s[0], SortInts(s[1..]))
  }
}
