/**
 * SchedulingPattern: the parser that turns a crontab-like pattern such as
 * "0-30/10 1-5 L jan-mar mon" into the five integer lists of a CronParameter. A pattern is five
 * blank-separated fields; a field is `*` or a comma-separated list of elements; an element is
 * a range (`*`, one value, or a-b, which wraps past the field's maximum when a > b), optionally
 * followed by a step /c that keeps every c-th value of the range. Every error surfaces as
 * InvalidParameterException.
 */
module SchedulingPatterns {
  import opened Wrappers
  import opened JavaLang
  import opened GregorianCalendar
  import opened AlarmUtils
  import opened EntryRules
  import opened CronParameters
  import opened CronAlarms

  // ---------------------------------------------------------------- value parsers

  /** The five value parsers, one per field of a pattern. */
  datatype ValueParser = MinuteParser | HourParser | DayOfMonthParser | MonthParser | DayOfWeekParser

  /** getMinValue. */
  function MinValue(p: ValueParser): int
  {
    match p
    case MinuteParser => 0
    case HourParser => 0
    case DayOfMonthParser => 1
    case MonthParser => 0
    case DayOfWeekParser => 1
  }

  /** getMaxValue. */
  function MaxValue(p: ValueParser): int
  {
    match p
    case MinuteParser => 59
    case HourParser => 23
    case DayOfMonthParser => 31
    case MonthParser => 11
    case DayOfWeekParser => 7
  }

  /** The largest value a parser returns: 32 (the last day, "L") for days of month, else getMaxValue. */
  function MaxParsed(p: ValueParser): int
  {
    if p == DayOfMonthParser then LastDayOfMonth else MaxValue(p)
  }

  const MonthAliases: seq<string> := ["jan", "feb", "mar", "apr", "may", "jun", "jul", "aug", "sep", "oct", "nov", "dec"]
  const WeekdayAliases: seq<string> := ["sun", "mon", "tue", "wed", "thu", "fri", "sat"]

  /** SimpleValueParser.parse: a decimal int within min..max. */
  function SimpleParse(value: string, min: int, max: int): (r: Result<int, AlarmError>)
    ensures r.Failure? ==> r.error == InvalidParameter
  {
    match ParseInt(value)
    case None => Failure(InvalidParameter)
    case Some(i) => if i < min || i > max then Failure(InvalidParameter) else Success(i)
  }

  /** parseAlias from position i on: offset plus the first position whose alias equals the value, ignoring case. */
  function AliasFrom(value: string, aliases: seq<string>, offset: int, i: nat): (r: Result<int, AlarmError>)
    requires i <= |aliases|
    ensures r.Failure? ==> r.error == InvalidParameter
    decreases |aliases| - i
  {
    if i == |aliases| then Failure(InvalidParameter)
    else if EqualsIgnoreCase(aliases[i], value) then Success(offset + i)
    else AliasFrom(value, aliases, offset, i + 1)
  }

  /** parseAlias: the loop over the aliases. */
  method ParseAlias(value: string, aliases: seq<string>, offset: int) returns (r: Result<int, AlarmError>)
    ensures r == AliasFrom(value, aliases, offset, 0)
  {
    var i := 0;
    while i < |aliases|
      invariant 0 <= i <= |aliases|
      invariant AliasFrom(value, aliases, offset, i) == AliasFrom(value, aliases, offset, 0)
    {
      if EqualsIgnoreCase(aliases[i], value) {
        return Success(offset + i);
      }
      i := i + 1;
    }
    return Failure(InvalidParameter);
  }

  /**
   * parseAlias finds the first alias equal to the value ignoring case, and fails exactly when
   * there is none.
   */
  lemma {:induction false} AliasFromFindsFirst(value: string, aliases: seq<string>, offset: int, i: nat)
    requires i <= |aliases|
    ensures var r := AliasFrom(value, aliases, offset, i);
      (r.Failure? <==> forall k | i <= k < |aliases| :: !EqualsIgnoreCase(aliases[k], value)) &&
      (r.Success? ==>
         offset + i <= r.value < offset + |aliases| && EqualsIgnoreCase(aliases[r.value - offset], value) &&
         forall k | i <= k < r.value - offset :: !EqualsIgnoreCase(aliases[k], value))
    decreases |aliases| - i
  {
    if i < |aliases| && !EqualsIgnoreCase(aliases[i], value) {
      AliasFromFindsFirst(value, aliases, offset, i + 1);
    }
  }

  /**
   * parse(value) of each parser: "L" (any case) is the last day of the month; months and days
   * of week fall back on their aliases when the value is not an int in range.
   */
  function ParseWith(p: ValueParser, value: string): (r: Result<int, AlarmError>)
    ensures r.Failure? ==> r.error == InvalidParameter
  {
    var simple := SimpleParse(value, MinValue(p), MaxValue(p));
    match p
    case DayOfMonthParser => if EqualsIgnoreCase(value, "L") then Success(LastDayOfMonth) else simple
    case MonthParser => if simple.Success? then simple else AliasFrom(value, MonthAliases, 0, 0)
    case DayOfWeekParser => if simple.Success? then simple else AliasFrom(value, WeekdayAliases, 1, 0)
    case _ => simple
  }

  /** The parse method of the value parsers. */
  method Parse(p: ValueParser, value: string) returns (r: Result<int, AlarmError>)
    ensures r == ParseWith(p, value)
  {
    if p == DayOfMonthParser && EqualsIgnoreCase(value, "L") {
      return Success(LastDayOfMonth);
    }
    r := SimpleParse(value, MinValue(p), MaxValue(p));
    if r.Failure? && p == MonthParser {
      r := ParseAlias(value, MonthAliases, 0);
    } else if r.Failure? && p == DayOfWeekParser {
      r := ParseAlias(value, WeekdayAliases, 1);
    }
  }

  /** Every parsed value lies in min..max of its parser, or is 32 for "L"; every error is InvalidParameter. */
  lemma ParsedValueInRange(p: ValueParser, value: string)
    ensures var r := ParseWith(p, value);
      (r.Success? ==> MinValue(p) <= r.value <= MaxParsed(p)) && (r.Failure? ==> r.error == InvalidParameter)
  {
    AliasFromFindsFirst(value, MonthAliases, 0, 0);
    AliasFromFindsFirst(value, WeekdayAliases, 1, 0);
  }

  /** Every letter of the text is a lower-case ASCII letter. */
  predicate LowerWord(s: string)
  {
    0 < |s| && forall i | 0 <= i < |s| :: 'a' <= s[i] <= 'z'
  }

  /** Lower-case aliases, no two alike. */
  predicate LowerDistinct(aliases: seq<string>)
  {
    (forall k | 0 <= k < |aliases| :: LowerWord(aliases[k])) &&
    (forall k, l | 0 <= k < l < |aliases| :: aliases[k] != aliases[l])
  }

  lemma MonthAliasesLowerDistinct()
    ensures LowerDistinct(MonthAliases)
  {
  }

  lemma WeekdayAliasesLowerDistinct()
    ensures LowerDistinct(WeekdayAliases)
  {
  }

  /** Two lower-case words that both equal s ignoring case are the same word. */
  lemma IgnoreCaseUnique(a: string, b: string, s: string)
    requires LowerWord(a) && LowerWord(b) && EqualsIgnoreCase(a, s) && EqualsIgnoreCase(b, s)
    ensures a == b
  {
    forall i | 0 <= i < |a|
      ensures a[i] == b[i]
    {
      LetterEqualsIgnoreCase(a[i], s[i]);
      LetterEqualsIgnoreCase(b[i], s[i]);
    }
  }

  /** A text equal to a lower-case word ignoring case is not a number. */
  lemma WordIsNoNumber(a: string, s: string)
    requires LowerWord(a) && EqualsIgnoreCase(a, s)
    ensures ParseInt(s) == None
  {
    LetterEqualsIgnoreCase(a[0], s[0]);
    assert !IsDigit(s[0]) && s[0] != '-' && s[0] != '+';
  }

  /** An alias from a list of distinct lower-case aliases, in any case, is found at its own position. */
  lemma AliasParses(aliases: seq<string>, offset: int, s: string, i: nat)
    requires LowerDistinct(aliases) && i < |aliases| && EqualsIgnoreCase(aliases[i], s)
    ensures AliasFrom(s, aliases, offset, 0) == Success(offset + i)
  {
    AliasFromFindsFirst(s, aliases, offset, 0);
    var r := AliasFrom(s, aliases, offset, 0);
    var k := r.value - offset;
    IgnoreCaseUnique(aliases[k], aliases[i], s);
  }

  /** The month aliases jan..dec, in any case, parse to 0..11. */
  lemma MonthAliasParses(s: string, i: nat)
    requires i < |MonthAliases| && EqualsIgnoreCase(MonthAliases[i], s)
    ensures ParseWith(MonthParser, s) == Success(i)
  {
    MonthAliasesLowerDistinct();
    WordIsNoNumber(MonthAliases[i], s);
    AliasParses(MonthAliases, 0, s, i);
  }

  /** The day-of-week aliases sun..sat, in any case, parse to 1..7. */
  lemma WeekdayAliasParses(s: string, i: nat)
    requires i < |WeekdayAliases| && EqualsIgnoreCase(WeekdayAliases[i], s)
    ensures ParseWith(DayOfWeekParser, s) == Success(i + 1)
  {
    WeekdayAliasesLowerDistinct();
    WordIsNoNumber(WeekdayAliases[i], s);
    AliasParses(WeekdayAliases, 1, s, i);
  }

  /**
   * equalsIgnoreCase takes the long s, the dotless i and the capital I with dot above for s
   * and i, so "\U{017F}un" is Sunday, and "fr\U{0131}" and "FR\U{0130}" are Friday.
   */
  lemma NonAsciiWeekdaysParse()
    ensures ParseWith(DayOfWeekParser, "\U{017F}un") == Success(1)
    ensures ParseWith(DayOfWeekParser, "fr\U{0131}") == Success(6)
    ensures ParseWith(DayOfWeekParser, "FR\U{0130}") == Success(6)
  {
    assert WeekdayAliases[0] == "sun" && WeekdayAliases[5] == "fri";
    LetterEqualsIgnoreCase('s', '\U{017F}');
    WeekdayAliasParses("\U{017F}un", 0);
    LetterEqualsIgnoreCase('i', '\U{0131}');
    WeekdayAliasParses("fr\U{0131}", 5);
    LetterEqualsIgnoreCase('i', '\U{0130}');
    WeekdayAliasParses("FR\U{0130}", 5);
  }

  /** The long s is taken for s, so "\U{017F}ep" is September. */
  lemma NonAsciiMonthParses()
    ensures ParseWith(MonthParser, "\U{017F}ep") == Success(8)
  {
    assert MonthAliases[8] == "sep";
    LetterEqualsIgnoreCase('s', '\U{017F}');
    MonthAliasParses("\U{017F}ep", 8);
  }

  /** A day-of-month value parses to 32 exactly when it is "L" in either case. */
  lemma LastDayParses(s: string)
    ensures ParseWith(DayOfMonthParser, s) == Success(LastDayOfMonth) <==> EqualsIgnoreCase(s, "L")
  {
  }

  /** A numeral matches no lower-case alias. */
  lemma NumeralIsNoAlias(n: int, aliases: seq<string>, offset: int)
    requires LowerDistinct(aliases)
    ensures AliasFrom(IntToString(n), aliases, offset, 0) == Failure(InvalidParameter)
  {
    var s := IntToString(n);
    AliasFromFindsFirst(s, aliases, offset, 0);
    forall k | 0 <= k < |aliases|
      ensures !EqualsIgnoreCase(aliases[k], s)
    {
      assert IsDigit(s[0]) || s[0] == '-';
      assert 'a' <= aliases[k][0] <= 'z';
    }
  }

  /** A numeral parses to its value when that lies in the parser's range, and is rejected otherwise. */
  lemma NumeralParses(p: ValueParser, n: int)
    requires IsInt32(n)
    ensures ParseWith(p, IntToString(n)) ==
      if MinValue(p) <= n <= MaxValue(p) then Success(n) else Failure(InvalidParameter)
  {
    var s := IntToString(n);
    ParseIntToString(n);
    assert !EqualsIgnoreCase(s, "L") by {
      assert IsDigit(s[0]) || s[0] == '-';
    }
    MonthAliasesLowerDistinct();
    WeekdayAliasesLowerDistinct();
    NumeralIsNoAlias(n, MonthAliases, 0);
    NumeralIsNoAlias(n, WeekdayAliases, 1);
  }

  // ---------------------------------------------------------------- ranges and steps

  /** The values lo, lo + 1, ..., hi (none when lo > hi). */
  function Interval(lo: int, hi: int): (r: seq<int>)
    ensures |r| == if lo <= hi then hi - lo + 1 else 0
    ensures forall k | 0 <= k < |r| :: r[k] == lo + k
  {
    if lo > hi then [] else seq(hi - lo + 1, k => lo + k)
  }

  /** A `for (int i = lo; i <= hi; i++) values.add(i)` loop. */
  method AddInterval(values: seq<int>, lo: int, hi: int) returns (r: seq<int>)
    ensures r == values + Interval(lo, hi)
  {
    r := values;
    var i := lo;
    while i <= hi
      invariant lo <= i && (i <= hi + 1 || i == lo)
      invariant r == values + Interval(lo, i - 1)
    {
      assert Interval(lo, i) == Interval(lo, i - 1) + [i];
      r := r + [i];
      i := i + 1;
    }
  }

  /** The values of a range a-b: a..b, or a..max then min..b when it wraps, or just a. */
  function RangeValues(v1: int, v2: int, min: int, max: int): seq<int>
  {
    if v1 < v2 then Interval(v1, v2)
    else if v1 > v2 then Interval(v1, max) + Interval(min, v2)
    else [v1]
  }

  /** A range a-b holds exactly the values from a up to b, going round from max to min when b < a. */
  lemma RangeValuesMembers(v1: int, v2: int, min: int, max: int, x: int)
    ensures x in RangeValues(v1, v2, min, max) <==>
      if v1 <= v2 then v1 <= x <= v2 else (v1 <= x <= max || min <= x <= v2)
  {
    var r := RangeValues(v1, v2, min, max);
    if v1 < v2 {
      if v1 <= x <= v2 { assert r[x - v1] == x; }
    } else if v1 > v2 {
      if v1 <= x <= max { assert r[x - v1] == x; }
      else if min <= x <= v2 {
        var front := Interval(v1, max);
        assert r[|front| + (x - min)] == x;
      }
    }
  }

  /** parseRange as a value. */
  function RangeOf(str: string, p: ValueParser): (r: Result<seq<int>, AlarmError>)
    ensures r.Failure? ==> r.error == InvalidParameter
  {
    if str == "*" then Success(Interval(MinValue(p), MaxValue(p)))
    else
      var st := Tokens(str, {'-'});
      if |st| < 1 || |st| > 2 then Failure(InvalidParameter)
      else
        var v1 :- ParseWith(p, st[0]);
        if |st| == 1 then Success([v1])
        else
          var v2 :- ParseWith(p, st[1]);
          Success(RangeValues(v1, v2, MinValue(p), MaxValue(p)))
  }

  /** parseRange: `*`, one value, or two values separated by '-', each read by the field's parser. */
  method ParseRange(str: string, p: ValueParser) returns (r: Result<seq<int>, AlarmError>)
    ensures r == RangeOf(str, p)
  {
    if str == "*" {
      var values := AddInterval([], MinValue(p), MaxValue(p));
      assert values == Interval(MinValue(p), MaxValue(p));
      return Success(values);
    }
    var st := Tokens(str, {'-'});
    var size := |st|;
    if size < 1 || size > 2 {
      return Failure(InvalidParameter);
    }
    var v1 := Parse(p, st[0]);
    if v1.Failure? {
      return Failure(InvalidParameter);
    }
    if size == 1 {
      return Success([v1.value]);
    }
    var v2 := Parse(p, st[1]);
    if v2.Failure? {
      return Failure(InvalidParameter);
    }
    var values := AddRange(v1.value, v2.value, MinValue(p), MaxValue(p));
    return Success(values);
  }

  /** The value loops of parseRange once both ends are read. */
  method AddRange(v1: int, v2: int, min: int, max: int) returns (values: seq<int>)
    ensures values == RangeValues(v1, v2, min, max)
  {
    values := [];
    if v1 < v2 {
      values := AddInterval(values, v1, v2);
    } else if v1 > v2 {
      values := AddInterval(values, v1, max);
      values := AddInterval(values, min, v2);
    } else {
      values := values + [v1];
    }
  }

  /** Every value lies in the parser's min..max, or is 32 for days of month. */
  predicate InBounds(values: seq<int>, p: ValueParser)
  {
    AtLeast(values, MinValue(p)) && AtMost(values, MaxParsed(p))
  }

  /** Every value of a range lies in the parser's min..max (32 included for days of month), and there is one at least. */
  lemma RangeInBounds(str: string, p: ValueParser)
    ensures var r := RangeOf(str, p);
      r.Success? ==> 0 < |r.value| && InBounds(r.value, p)
  {
    var r := RangeOf(str, p);
    if r.Success? && str != "*" {
      var st := Tokens(str, {'-'});
      ParsedValueInRange(p, st[0]);
      if |st| == 2 {
        ParsedValueInRange(p, st[1]);
        var v1, v2 := ParseWith(p, st[0]).value, ParseWith(p, st[1]).value;
        forall i | 0 <= i < |r.value|
          ensures MinValue(p) <= r.value[i] <= MaxParsed(p)
        {
          RangeValuesMembers(v1, v2, MinValue(p), MaxValue(p), r.value[i]);
        }
        RangeValuesMembers(v1, v2, MinValue(p), MaxValue(p), v2);
      }
    }
  }

  /** The list from position i on, or nothing when i is past its end. */
  function Drop(values: seq<int>, i: nat): seq<int>
  {
    if i < |values| then values[i..] else []
  }

  /** The values at positions 0, c, 2c, ... of a list (the step loop of parseListElement). */
  function Stepped(values: seq<int>, c: nat): seq<int>
    requires 0 < c
    decreases |values|
  {
    if |values| == 0 then [] else [values[0]] + Stepped(Drop(values, c), c)
  }

  lemma DropDrop(values: seq<int>, i: nat, c: nat)
    requires i < |values|
    ensures Drop(Drop(values, i), c) == Drop(values, i + c)
  {
  }

  /**
   * A step keeps the list's first value and then every c-th one: position k of the result is
   * position k * c of the list, and no position that is a multiple of c is skipped.
   */
  lemma {:induction false} SteppedPositions(values: seq<int>, c: nat)
    requires 0 < c
    ensures var r := Stepped(values, c);
      |values| <= |r| * c && forall k | 0 <= k < |r| :: k * c < |values| && r[k] == values[k * c]
  {
    SteppedLength(values, c);
    forall k | 0 <= k < |Stepped(values, c)|
      ensures k * c < |values| && Stepped(values, c)[k] == values[k * c]
    {
      SteppedAt(values, c, k);
    }
  }

  lemma {:induction false} SteppedLength(values: seq<int>, c: nat)
    requires 0 < c
    ensures |values| <= |Stepped(values, c)| * c
    decreases |values|
  {
    if |values| > 0 {
      var rest := Drop(values, c);
      SteppedLength(rest, c);
      var m := |Stepped(rest, c)|;
      assert (m + 1) * c == m * c + c;
    }
  }

  lemma {:induction false} SteppedAt(values: seq<int>, c: nat, k: nat)
    requires 0 < c && k < |Stepped(values, c)|
    ensures k * c < |values| && Stepped(values, c)[k] == values[k * c]
    decreases k
  {
    if k > 0 {
      var rest := Drop(values, c);
      assert Stepped(values, c)[k] == Stepped(rest, c)[k - 1];
      SteppedAt(rest, c, k - 1);
      ProductStep(k, c);
    }
  }

  lemma ProductNonNegative(a: nat, b: nat)
    ensures 0 <= a * b
  {
  }

  lemma ProductGap(a: int, b: int, c: int)
    requires 0 < c && b < a
    ensures c <= a * c - b * c
  {
    SubtractProducts(a, b, c);
    AtLeastOnce(a - b, c);
  }

  lemma ProductStep(k: int, c: int)
    ensures k * c == (k - 1) * c + c
  {
  }

  lemma SubtractProducts(a: int, b: int, c: int)
    ensures a * c - b * c == (a - b) * c
  {
  }

  lemma AtLeastOnce(x: int, c: int)
    requires 1 <= x && 0 < c
    ensures c <= x * c
  {
  }

  /** Euclidean division is determined by any quotient and remainder that fit. */
  lemma QuotientUnique(n: int, q: int, c: int, r: int)
    requires 0 < c && 0 <= r < c && n == q * c + r
    ensures n / c == q && n % c == r
  {
    var q', r' := n / c, n % c;
    assert n == q' * c + r';
    if q' < q {
      ProductGap(q, q', c);
    } else if q < q' {
      ProductGap(q', q, c);
    }
  }

  lemma TimesBelow(k: int, m: int, c: int)
    requires 0 < c && k * c < m * c
    ensures k < m
  {
    if m < k {
      ProductGap(k, m, c);
    }
  }

  /**
   * A stepped range lo-hi/c holds exactly the values of lo..hi that are a multiple of c
   * above lo ("3-18/5" is 3, 8, 13, 18).
   */
  lemma SteppedInterval(lo: int, hi: int, c: nat, x: int)
    requires 0 < c
    ensures x in Stepped(Interval(lo, hi), c) <==> lo <= x <= hi && (x - lo) % c == 0
  {
    if x in Stepped(Interval(lo, hi), c) {
      SteppedIntervalMember(lo, hi, c, x);
    }
    if lo <= x <= hi && (x - lo) % c == 0 {
      SteppedIntervalComplete(lo, hi, c, x);
    }
  }

  lemma SteppedIntervalMember(lo: int, hi: int, c: nat, x: int)
    requires 0 < c && x in Stepped(Interval(lo, hi), c)
    ensures lo <= x <= hi && (x - lo) % c == 0
  {
    var m := SteppedMemberAt(Interval(lo, hi), c, x);
  }

  /** A value of a stepped list sits at a position of the list that is a multiple of c. */
  lemma SteppedMemberAt(values: seq<int>, c: nat, x: int) returns (m: nat)
    requires 0 < c && x in Stepped(values, c)
    ensures m < |values| && values[m] == x && m % c == 0
  {
    var r := Stepped(values, c);
    var k :| 0 <= k < |r| && r[k] == x;
    SteppedAt(values, c, k);
    ProductNonNegative(k, c);
    m := k * c;
    QuotientUnique(m, k, c, 0);
  }

  lemma SteppedIntervalComplete(lo: int, hi: int, c: nat, x: int)
    requires 0 < c && lo <= x <= hi && (x - lo) % c == 0
    ensures x in Stepped(Interval(lo, hi), c)
  {
    var values := Interval(lo, hi);
    var r := Stepped(values, c);
    SteppedLength(values, c);
    var k := ExactQuotient(x - lo, c);
    TimesBelow(k, |r|, c);
    SteppedAt(values, c, k);
    assert r[k] == values[k * c];
  }

  /** A multiple of c is c times its quotient. */
  lemma ExactQuotient(n: nat, c: nat) returns (k: nat)
    requires 0 < c && n % c == 0
    ensures k * c == n
  {
    k := n / c;
  }

  /** The step loop: `for (int i = 0; i < values.size(); i += div) values2.add(values.get(i))`. */
  method StepValues(values: seq<int>, c: nat) returns (values2: seq<int>)
    requires 0 < c
    ensures values2 == Stepped(values, c)
  {
    values2 := [];
    var i: nat := 0;
    while i < |values|
      invariant values2 + Stepped(Drop(values, i), c) == Stepped(values, c)
      decreases |values| - i
    {
      SteppedStep(values, i, c);
      ghost var rest := Stepped(Drop(values, i + c), c);
      assert values2 + [values[i]] + rest == values2 + ([values[i]] + rest);
      values2 := values2 + [values[i]];
      i := i + c;
    }
    assert Drop(values, i) == [];
    assert values2 + [] == values2;
  }

  /** One round of the step loop: take the value at i, go on from i + c. */
  lemma SteppedStep(values: seq<int>, i: nat, c: nat)
    requires 0 < c && i < |values|
    ensures Stepped(Drop(values, i), c) == [values[i]] + Stepped(Drop(values, i + c), c)
  {
    DropDrop(values, i, c);
  }

  /** parseListElement as a value: a range, optionally followed by "/c" with c a positive int. */
  function ElementOf(str: string, p: ValueParser): (r: Result<seq<int>, AlarmError>)
    ensures r.Failure? ==> r.error == InvalidParameter
  {
    var st := Tokens(str, {'/'});
    if |st| < 1 || |st| > 2 then Failure(InvalidParameter)
    else
      var values :- RangeOf(st[0], p);
      if |st| == 1 then Success(values)
      else
        match ParseInt(st[1])
        case None => Failure(InvalidParameter)
        case Some(div) => if div < 1 then Failure(InvalidParameter) else Success(Stepped(values, div))
  }

  /** parseListElement: the range, then the step loop `for (i = 0; i < size; i += div)`. */
  method ParseListElement(str: string, p: ValueParser) returns (r: Result<seq<int>, AlarmError>)
    ensures r == ElementOf(str, p)
  {
    var st := Tokens(str, {'/'});
    var size := |st|;
    if size < 1 || size > 2 {
      return Failure(InvalidParameter);
    }
    var values :- ParseRange(st[0], p);
    if size == 2 {
      var dStr := st[1];
      var div := ParseInt(dStr);
      if div.None? {
        return Failure(InvalidParameter);
      }
      if div.value < 1 {
        return Failure(InvalidParameter);
      }
      var values2 := StepValues(values, div.value);
      return Success(values2);
    }
    return Success(values);
  }

  /** A step keeps the list's bounds and at least its first value. */
  lemma SteppedInBounds(values: seq<int>, c: nat, p: ValueParser)
    requires 0 < c && 0 < |values| && InBounds(values, p)
    ensures 0 < |Stepped(values, c)| && InBounds(Stepped(values, c), p)
  {
    SteppedPositions(values, c);
    var r := Stepped(values, c);
    forall k | 0 <= k < |r|
      ensures MinValue(p) <= r[k] <= MaxParsed(p)
    {
      assert r[k] == values[k * c];
    }
  }

  /** Every value of an element lies in the parser's range (32 included for days of month), and there is one at least. */
  lemma ElementInBounds(str: string, p: ValueParser)
    ensures var r := ElementOf(str, p);
      r.Success? ==> 0 < |r.value| && InBounds(r.value, p)
  {
    var st := Tokens(str, {'/'});
    if 1 <= |st| <= 2 {
      RangeInBounds(st[0], p);
      var range := RangeOf(st[0], p);
      if |st| == 2 && range.Success? {
        var div := ParseInt(st[1]);
        if div.Some? && div.value >= 1 {
          SteppedInBounds(range.value, div.value, p);
          assert ElementOf(str, p) == Success(Stepped(range.value, div.value));
        }
      }
    }
  }

  // ---------------------------------------------------------------- fields

  /** The lists of the elements, one after the other, before repeats are dropped. */
  function Gathered(elements: seq<string>, p: ValueParser): (r: Result<seq<int>, AlarmError>)
    ensures r.Failure? ==> r.error == InvalidParameter
    decreases |elements|
  {
    if |elements| == 0 then Success([])
    else
      var init :- Gathered(elements[..|elements| - 1], p);
      var local :- ElementOf(elements[|elements| - 1], p);
      Success(init + local)
  }

  /** The values in order of first occurrence, each once (the contains test before each add). */
  function Dedup(s: seq<int>): seq<int>
    decreases |s|
  {
    if |s| == 0 then []
    else
      var d := Dedup(s[..|s| - 1]);
      if s[|s| - 1] in d then d else d + [s[|s| - 1]]
  }

  predicate Distinct(s: seq<int>)
  {
    forall i, j | 0 <= i < j < |s| :: s[i] != s[j]
  }

  /** Dropping repeats keeps every value, adds none, and leaves no value twice. */
  lemma {:induction false} DedupMembers(s: seq<int>)
    ensures Distinct(Dedup(s))
    ensures forall x :: x in Dedup(s) <==> x in s
    decreases |s|
  {
    if |s| > 0 {
      var init := s[..|s| - 1];
      DedupMembers(init);
      assert s == init + [s[|s| - 1]];
    }
  }

  /** Values that come later never change the order of those already kept: first occurrences win. */
  lemma {:induction false} DedupPrefix(s: seq<int>, t: seq<int>)
    ensures Dedup(s) <= Dedup(s + t)
    decreases |t|
  {
    if |t| == 0 {
      assert s + t == s;
    } else {
      var init := t[..|t| - 1];
      DedupPrefix(s, init);
      assert (s + t)[..|s + t| - 1] == s + init;
    }
  }

  /** A list without repeats is kept as it is. */
  lemma {:induction false} DedupDistinct(s: seq<int>)
    requires Distinct(s)
    ensures Dedup(s) == s
    decreases |s|
  {
    if |s| > 0 {
      var init := s[..|s| - 1];
      DedupDistinct(init);
      assert s == init + [s[|s| - 1]];
    }
  }

  /**
   * parseValue as a value: "*" gives {-1}; otherwise the lists of the comma-separated elements,
   * repeats dropped in order of first occurrence; a field that yields no value is rejected.
   */
  function FieldOf(str: string, p: ValueParser): (r: Result<seq<int>, AlarmError>)
    ensures r.Failure? ==> r.error == InvalidParameter
  {
    if str == "*" then Success([Any])
    else
      var all :- Gathered(Tokens(str, {','}), p);
      var values := Dedup(all);
      if |values| == 0 then Failure(InvalidParameter) else Success(values)
  }

  lemma GatheredPrefixFails(elements: seq<string>, n: nat, p: ValueParser)
    requires n <= |elements| && Gathered(elements[..n], p).Failure?
    ensures Gathered(elements, p).Failure?
    decreases |elements| - n
  {
    if n < |elements| {
      assert elements[..n + 1][..n] == elements[..n];
      GatheredPrefixFails(elements, n + 1, p);
    } else {
      assert elements[..n] == elements;
    }
  }

  lemma DedupSnoc(s: seq<int>, x: int)
    ensures Dedup(s + [x]) == if x in Dedup(s) then Dedup(s) else Dedup(s) + [x]
  {
    assert (s + [x])[..|s|] == s;
  }

  /** The inner loop of parseValue: each value of an element is added unless already present. */
  method AddValues(ghost seen: seq<int>, values: seq<int>, local: seq<int>) returns (r: seq<int>)
    requires values == Dedup(seen)
    ensures r == Dedup(seen + local)
  {
    r := values;
    var j := 0;
    assert seen + local[..0] == seen;
    while j < |local|
      invariant 0 <= j <= |local|
      invariant r == Dedup(seen + local[..j])
    {
      var value := local[j];
      DedupSnoc(seen + local[..j], value);
      assert seen + local[..j + 1] == (seen + local[..j]) + [value];
      if value !in r {
        r := r + [value];
      }
      j := j + 1;
    }
    assert local[..|local|] == local;
  }

  /** The list gathered from one element more. */
  lemma GatheredSnoc(elements: seq<string>, i: nat, p: ValueParser)
    requires i < |elements|
    ensures Gathered(elements[..i + 1], p) ==
      if Gathered(elements[..i], p).Failure? then Gathered(elements[..i], p)
      else if ElementOf(elements[i], p).Failure? then ElementOf(elements[i], p)
      else Success(Gathered(elements[..i], p).value + ElementOf(elements[i], p).value)
  {
    assert elements[..i + 1][..i] == elements[..i];
  }

  /** The element loop of parseValue: the values of every element, repeats dropped. */
  method GatherElements(st: seq<string>, p: ValueParser) returns (r: Result<seq<int>, AlarmError>)
    ensures r.Success? <==> Gathered(st, p).Success?
    ensures r.Success? ==> r.value == Dedup(Gathered(st, p).value)
    ensures r.Failure? ==> r.error == InvalidParameter
  {
    var values: seq<int> := [];
    ghost var gathered: seq<int> := [];
    var i := 0;
    assert st[..0] == [];
    while i < |st|
      invariant 0 <= i <= |st|
      invariant Gathered(st[..i], p) == Success(gathered)
      invariant values == Dedup(gathered)
    {
      var step;
      step, gathered := GatherElement(st, i, p, gathered, values);
      if step.Failure? {
        GatheredPrefixFails(st, i + 1, p);
        return Failure(InvalidParameter);
      }
      values := step.value;
      i := i + 1;
    }
    assert st[..|st|] == st;
    return Success(values);
  }

  /** One round of the element loop: parse element i and add its new values. */
  method GatherElement(st: seq<string>, i: nat, p: ValueParser, ghost gathered: seq<int>, values: seq<int>)
    returns (r: Result<seq<int>, AlarmError>, ghost gathered': seq<int>)
    requires i < |st| && Gathered(st[..i], p) == Success(gathered) && values == Dedup(gathered)
    ensures r.Failure? ==> Gathered(st[..i + 1], p).Failure?
    ensures r.Success? ==> Gathered(st[..i + 1], p) == Success(gathered') && r.value == Dedup(gathered')
  {
    var local := ParseListElement(st[i], p);
    GatheredSnoc(st, i, p);
    if local.Failure? {
      return Failure(InvalidParameter), gathered;
    }
    var added := AddValues(gathered, values, local.value);
    return Success(added), gathered + local.value;
  }

  /** parseValue: each element through parseListElement, each of its values added unless already present. */
  method ParseValue(str: string, p: ValueParser) returns (r: Result<seq<int>, AlarmError>)
    ensures r == FieldOf(str, p)
  {
    var values: seq<int> := [];
    if |str| == 1 && str == "*" {
      values := values + [Any];
      assert values == [Any];
    } else {
      values :- GatherElements(Tokens(str, {','}), p);
    }
    if |values| == 0 {
      return Failure(InvalidParameter);
    }
    return Success(values);
  }

  /** Every element of a successfully gathered list contributes at least one value, all in range. */
  lemma {:induction false} GatheredInBounds(elements: seq<string>, p: ValueParser)
    ensures var r := Gathered(elements, p);
      r.Success? ==> (|r.value| == 0 <==> |elements| == 0) && InBounds(r.value, p)
    decreases |elements|
  {
    if |elements| > 0 {
      GatheredInBounds(elements[..|elements| - 1], p);
      ElementInBounds(elements[|elements| - 1], p);
      var r := Gathered(elements, p);
      if r.Success? {
        var init := Gathered(elements[..|elements| - 1], p).value;
        var local := ElementOf(elements[|elements| - 1], p).value;
        assert r.value == init + local;
        forall i | 0 <= i < |r.value|
          ensures MinValue(p) <= r.value[i] <= MaxParsed(p)
        {
          if i >= |init| { assert r.value[i] == local[i - |init|]; }
        }
      }
    }
  }

  /**
   * A parsed field is {-1} exactly when the text is "*"; otherwise it is a non-empty list
   * without repeats of values in the parser's range (32 included for days of month), holding
   * exactly the values of its elements. Parsing fails, with InvalidParameter, exactly when the
   * text is not "*" and an element fails or there is no element.
   */
  lemma FieldShape(str: string, p: ValueParser)
    ensures var r := FieldOf(str, p);
      (r.Failure? <==> str != "*" && (Gathered(Tokens(str, {','}), p).Failure? || |Tokens(str, {','})| == 0)) &&
      (r.Success? ==> 0 < |r.value| && Distinct(r.value) && (IsWildcard(r.value) <==> str == "*")) &&
      (r.Success? && str != "*" ==>
         InBounds(r.value, p) &&
         (forall x :: x in r.value <==> x in Gathered(Tokens(str, {','}), p).value))
  {
    if str != "*" {
      var g := Gathered(Tokens(str, {','}), p);
      GatheredInBounds(Tokens(str, {','}), p);
      if g.Success? {
        DedupInBounds(g.value, p);
      }
    }
  }

  /** Dropping repeats from an in-range list leaves an in-range list, empty only when the list was. */
  lemma DedupInBounds(s: seq<int>, p: ValueParser)
    requires InBounds(s, p)
    ensures var d := Dedup(s);
      InBounds(d, p) && Distinct(d) && (|d| == 0 <==> |s| == 0) && (forall x :: x in d <==> x in s)
  {
    DedupMembers(s);
    var d := Dedup(s);
    forall i | 0 <= i < |d|
      ensures MinValue(p) <= d[i] <= MaxParsed(p)
    {
      assert d[i] in s;
    }
    if 0 < |d| {
      assert d[0] in s;
    }
    if 0 < |s| {
      assert s[0] in d;
    }
  }

  // ---------------------------------------------------------------- whole patterns

  /** parseCron as a value: five blank-separated fields, each through its own parser. */
  function CronPattern(pattern: string): (r: Result<CronFields, AlarmError>)
    ensures r.Failure? ==> r.error == InvalidParameter
  {
    var st := Tokens(pattern, Blanks);
    if |st| != 5 then Failure(InvalidParameter)
    else
      var minutes :- FieldOf(st[0], MinuteParser);
      var hours :- FieldOf(st[1], HourParser);
      var daysOfMonth :- FieldOf(st[2], DayOfMonthParser);
      var months :- FieldOf(st[3], MonthParser);
      var daysOfWeek :- FieldOf(st[4], DayOfWeekParser);
      Success(CronFields(Some(minutes), Some(hours), Some(daysOfMonth), Some(months), Some(daysOfWeek)))
  }

  /**
   * parseCron: a fresh CronParameter whose five fields are set from the five tokens; any field
   * error becomes InvalidParameterException.
   */
  method ParseCron(pattern: string) returns (r: Result<CronParameter, AlarmError>)
    ensures r.Success? <==> CronPattern(pattern).Success?
    ensures r.Failure? ==> r.error == InvalidParameter
    ensures r.Success? ==> fresh(r.value) && r.value.Fields() == CronPattern(pattern).value
  {
    var st := Tokens(pattern, Blanks);
    var entry := new CronParameter();
    if |st| != 5 {
      return Failure(InvalidParameter);
    }
    var minutes := ParseValue(st[0], MinuteParser);
    if minutes.Failure? {
      return Failure(InvalidParameter);
    }
    entry.SetMinutesList(minutes.value);
    var hours := ParseValue(st[1], HourParser);
    if hours.Failure? {
      return Failure(InvalidParameter);
    }
    entry.SetHoursList(hours.value);
    var daysOfMonth := ParseValue(st[2], DayOfMonthParser);
    if daysOfMonth.Failure? {
      return Failure(InvalidParameter);
    }
    entry.SetDaysOfMonthList(daysOfMonth.value);
    var months := ParseValue(st[3], MonthParser);
    if months.Failure? {
      return Failure(InvalidParameter);
    }
    entry.SetMonthsList(months.value);
    var daysOfWeek := ParseValue(st[4], DayOfWeekParser);
    if daysOfWeek.Failure? {
      return Failure(InvalidParameter);
    }
    entry.SetDaysOfWeekList(daysOfWeek.value);
    return Success(entry);
  }

  /** parseDayOfMonths: one day-of-month field, as a new int array. */
  method ParseDayOfMonths(pattern: string) returns (r: Result<seq<int>, AlarmError>)
    ensures r == FieldOf(pattern, DayOfMonthParser)
  {
    var values := ParseValue(pattern, DayOfMonthParser);
    if values.Failure? {
      return Failure(InvalidParameter);
    }
    var ints := GetTabInts(values.value);
    assert ints == values.value;
    return Success(ints);
  }

  /** parseDayOfWeeks: one day-of-week field, as a new int array. */
  method ParseDayOfWeeks(pattern: string) returns (r: Result<seq<int>, AlarmError>)
    ensures r == FieldOf(pattern, DayOfWeekParser)
  {
    var values := ParseValue(pattern, DayOfWeekParser);
    if values.Failure? {
      return Failure(InvalidParameter);
    }
    var ints := GetTabInts(values.value);
    assert ints == values.value;
    return Success(ints);
  }

  /** Every field of a parsed pattern fits the range the cron search expects of it. */
  lemma PatternFieldsInRange(pattern: string)
    ensures var r := CronPattern(pattern);
      r.Success? ==>
        WithinRange(r.value.minutes, MinMinute, MaxMinute) && WithinRange(r.value.hours, MinHour, MaxHour) &&
        WithinRange(r.value.daysOfMonth, MinDayOfMonth, LastDayOfMonth) &&
        WithinRange(r.value.months, MinMonth, MaxMonth) && WithinRange(r.value.daysOfWeek, MinDayOfWeek, MaxDayOfWeek)
  {
    var st := Tokens(pattern, Blanks);
    if |st| == 5 {
      FieldShape(st[0], MinuteParser);
      FieldShape(st[1], HourParser);
      FieldShape(st[2], DayOfMonthParser);
      FieldShape(st[3], MonthParser);
      FieldShape(st[4], DayOfWeekParser);
    }
  }

  /**
   * For a pattern that parses, a computed next alarm has an accepted minute and hour, is not
   * before the clock (seconds set to 2) and comes after a previous alarm still ahead of the clock.
   */
  lemma ParsedPatternNextAlarm(pattern: string, alarmTime: int, now: int)
    requires CronPattern(pattern).Success?
    ensures var f := CronPattern(pattern).value; var r := CronNext(f, alarmTime, now);
      r.Success? ==>
        Accepts(f.minutes, Minute(r.value)) && Accepts(f.hours, HourOfDay(r.value)) &&
        SetSecond(now, 2) <= r.value && (alarmTime > now ==> alarmTime < r.value)
  {
    var f := CronPattern(pattern).value;
    PatternFieldsInRange(pattern);
    CronNextTimeAccepted(f, alarmTime, now);
    CronNextForward(f, alarmTime, now);
  }

  // ---------------------------------------------------------------- printed fields read back

  /** A text without delimiters is a single token. */
  lemma OneToken(s: string, delims: set<char>)
    requires 0 < |s| && NoneOf(s, delims)
    ensures Tokens(s, delims) == [s]
  {
    RunLengthOf(s, [], delims);
    assert s + [] == s;
    assert s[..|s|] == s && s[|s|..] == [];
  }

  /** A number in a parser's range, printed, reads back as the one-value list of that number. */
  lemma NumeralElement(p: ValueParser, n: int)
    requires MinValue(p) <= n <= MaxValue(p)
    ensures ElementOf(IntToString(n), p) == Success([n])
  {
    var s := IntToString(n);
    assert NoneOf(s, {'/'}) && NoneOf(s, {'-'}) by {
      assert s == NatToString(n);
      forall i | 0 <= i < |s| ensures IsDigit(s[i]) { }
    }
    OneToken(s, {'/'});
    OneToken(s, {'-'});
    assert s != "*" by { assert IsDigit(s[0]); }
    NumeralParses(p, n);
  }

  lemma {:induction false} GatheredNumerals(values: seq<int>, p: ValueParser)
    requires forall i | 0 <= i < |values| :: MinValue(p) <= values[i] <= MaxValue(p)
    ensures Gathered(Numerals(values), p) == Success(values)
    decreases |values|
  {
    if |values| > 0 {
      var n := |values|;
      var init := values[..n - 1];
      assert values == init + [values[n - 1]];
      var names := Numerals(values);
      GatheredNumerals(init, p);
      assert names[..n - 1] == Numerals(init);
      assert names[n - 1] == IntToString(values[n - 1]);
      NumeralElement(p, values[n - 1]);
      GatheredLast(names, p, init, [values[n - 1]]);
    }
  }

  /** The elements gathered: those before the last, then the last element's values. */
  lemma GatheredLast(elements: seq<string>, p: ValueParser, init: seq<int>, local: seq<int>)
    requires 0 < |elements| && Gathered(elements[..|elements| - 1], p) == Success(init)
    requires ElementOf(elements[|elements| - 1], p) == Success(local)
    ensures Gathered(elements, p) == Success(init + local)
  {
  }

  /**
   * A field printed by CronParameter.toString reads back as the same list, when the list is
   * non-empty, has no repeats and lies in the parser's range.
   */
  lemma FieldTextRoundTrip(values: seq<int>, p: ValueParser)
    requires 0 < |values| && Distinct(values)
    requires forall i | 0 <= i < |values| :: MinValue(p) <= values[i] <= MaxValue(p)
    ensures FieldOf(TabText(Some(values)), p) == Success(values)
  {
    var parts := Numerals(values);
    forall k | 0 <= k < |parts|
      ensures 0 < |parts[k]| && NoneOf(parts[k], {','})
    {
      assert parts[k] == IntToString(values[k]);
    }
    TokensOfJoin(parts, ",", {','});
    GatheredNumerals(values, p);
    DedupDistinct(values);
    var text := TabText(Some(values));
    assert text != "*" by {
      assert parts[0] == NatToString(values[0]);
      assert IsDigit(parts[0][0]);
      assert text[0] == parts[0][0] by {
        if |parts| > 1 {
          assert text == parts[0] + "," + Join(parts[1..], ",");
        }
      }
    }
  }

  /** A field that parses back to itself from its printed form. */
  predicate Reparsable(field: Option<seq<int>>, p: ValueParser)
  {
    field.Some? && 0 < |field.value| && Distinct(field.value) &&
    forall i | 0 <= i < |field.value| :: MinValue(p) <= field.value[i] <= MaxValue(p)
  }

  /**
   * parseCron reads back what CronParameter.toString prints, when every field is a non-empty
   * list without repeats inside its parser's range.
   */
  lemma PatternTextRoundTrip(f: CronFields)
    requires Reparsable(f.minutes, MinuteParser) && Reparsable(f.hours, HourParser)
    requires Reparsable(f.daysOfMonth, DayOfMonthParser) && Reparsable(f.months, MonthParser)
    requires Reparsable(f.daysOfWeek, DayOfWeekParser)
    ensures CronPattern(FieldsText(f)) == Success(f)
  {
    FieldsTextRoundTrip(f);
    FieldTextRoundTrip(f.minutes.value, MinuteParser);
    FieldTextRoundTrip(f.hours.value, HourParser);
    FieldTextRoundTrip(f.daysOfMonth.value, DayOfMonthParser);
    FieldTextRoundTrip(f.months.value, MonthParser);
    FieldTextRoundTrip(f.daysOfWeek.value, DayOfWeekParser);
    FivePatternFields(FieldsText(f), TabText(f.minutes), TabText(f.hours), TabText(f.daysOfMonth),
                      TabText(f.months), TabText(f.daysOfWeek), f);
  }

  /** A pattern of five fields that each parse is parsed field by field. */
  lemma FivePatternFields(pattern: string, a: string, b: string, c: string, d: string, e: string, f: CronFields)
    requires Tokens(pattern, Blanks) == [a, b, c, d, e]
    requires f.minutes.Some? && FieldOf(a, MinuteParser) == Success(f.minutes.value)
    requires f.hours.Some? && FieldOf(b, HourParser) == Success(f.hours.value)
    requires f.daysOfMonth.Some? && FieldOf(c, DayOfMonthParser) == Success(f.daysOfMonth.value)
    requires f.months.Some? && FieldOf(d, MonthParser) == Success(f.months.value)
    requires f.daysOfWeek.Some? && FieldOf(e, DayOfWeekParser) == Success(f.daysOfWeek.value)
    ensures CronPattern(pattern) == Success(f)
  {
  }

  /**
   * The wildcard prints as "-1", which the range parser splits at its '-' and reads as 1: a
   * printed wildcard field reads back as {1}, not {-1}.
   */
  lemma PrintedWildcardReadsAsOne(p: ValueParser)
    ensures FieldOf(TabText(Wildcard), p) == Success([1])
  {
    NullPrintsAsWildcard();
    DashOneElement(p);
    var text := TabText(Wildcard);
    assert text == "-1";
    assert NoneOf(text, {','});
    OneToken(text, {','});
    GatheredOne("-1", p);
  }

  lemma GatheredOne(element: string, p: ValueParser)
    ensures Gathered([element], p) == ElementOf(element, p)
  {
    assert [element][..0] == [];
    var e := ElementOf(element, p);
    if e.Success? {
      assert [] + e.value == e.value;
    }
  }

  /** "-1" is an element whose range has one bound, 1: the leading '-' is skipped as a delimiter. */
  lemma DashOneElement(p: ValueParser)
    ensures ElementOf("-1", p) == Success([1])
  {
    assert NoneOf("-1", {'/'});
    OneToken("-1", {'/'});
    assert "-1" == "-" + "1";
    TokensSkip("-", "1", {'-'});
    OneToken("1", {'-'});
    assert "1" == IntToString(1);
    NumeralParses(p, 1);
    assert RangeOf("-1", p) == Success([1]);
  }

  /** Lists are kept in the order written, not sorted: "5,3" gives {5, 3}. */
  lemma ListOrderKept()
    ensures FieldOf("5,3", MinuteParser) == Success([5, 3])
  {
    assert IntToString(5) == "5" && IntToString(3) == "3";
    assert Numerals([5, 3]) == ["5", "3"];
    assert TabText(Some([5, 3])) == "5,3" by {
      assert ["5", "3"][1..] == ["3"];
    }
    FieldTextRoundTrip([5, 3], MinuteParser);
  }
}
