/**
 * CronParameter: the five field lists of a cron entry (minutes, hours, days of month, months,
 * days of week). Each list is an int array that the setters replace; a fresh parameter holds
 * the wildcard {-1} in every field. A null array is modelled as None.
 */
module CronParameters {
  import opened Wrappers
  import opened JavaLang
  import opened AlarmUtils

  /** The five lists, in the order of a cron pattern. */
  datatype CronFields = CronFields(
    minutes: Option<seq<int>>,
    hours: Option<seq<int>>,
    daysOfMonth: Option<seq<int>>,
    months: Option<seq<int>>,
    daysOfWeek: Option<seq<int>>)

  /** The field initializer { -1 }. */
  const Wildcard: Option<seq<int>> := Some([Any])

  /** The characters a cron pattern is split at: space and tab. */
  const Blanks: set<char> := {' ', '\t'}

  /** tabToString: "-1" for a null array, else the values separated by commas. */
  function TabText(tab: Option<seq<int>>): string
  {
    match tab
    case None => "-1"
    case Some(v) => Join(Numerals(v), ",")
  }

  /** toString: the five fields in pattern order, separated by single spaces. */
  function FieldsText(f: CronFields): string
  {
    Join([TabText(f.minutes), TabText(f.hours), TabText(f.daysOfMonth), TabText(f.months), TabText(f.daysOfWeek)], " ")
  }

  /** A null field and the wildcard print alike. */
  lemma NullPrintsAsWildcard()
    ensures TabText(None) == TabText(Wildcard)
  {
    assert NatToString(1) == [DigitChar(1)] == "1";
    assert IntToString(-1) == "-" + NatToString(1) == "-1";
    assert Numerals([Any]) == [IntToString(-1)];
  }

  lemma {:induction false} JoinNoneOf(parts: seq<string>, sep: string, delims: set<char>)
    requires NoneOf(sep, delims)
    requires forall k | 0 <= k < |parts| :: NoneOf(parts[k], delims)
    ensures NoneOf(Join(parts, sep), delims)
  {
    if |parts| > 1 {
      JoinNoneOf(parts[1..], sep, delims);
    }
  }

  lemma {:induction false} JoinNonEmpty(parts: seq<string>, sep: string)
    requires 0 < |parts| && 0 < |parts[0]|
    ensures 0 < |Join(parts, sep)|
  {
  }

  /**
   * Splitting a printed field at its commas and parsing each piece gives the array back.
   */
  lemma TabTextRoundTrip(values: seq<int>)
    requires 0 < |values| && forall i | 0 <= i < |values| :: IsInt32(values[i])
    ensures var ts := Tokens(TabText(Some(values)), {','});
      |ts| == |values| && forall i | 0 <= i < |values| :: ParseInt(ts[i]) == Some(values[i])
  {
    var parts := Numerals(values);
    forall k | 0 <= k < |parts|
      ensures 0 < |parts[k]| && NoneOf(parts[k], {','})
    {
      assert parts[k] == IntToString(values[k]);
    }
    TokensOfJoin(parts, ",", {','});
    forall i | 0 <= i < |values|
      ensures ParseInt(parts[i]) == Some(values[i])
    {
      ParseIntToString(values[i]);
    }
  }

  /**
   * When no field is an empty array, splitting the printed parameter at its blanks gives the
   * five printed fields back, in order.
   */
  lemma FieldsTextRoundTrip(f: CronFields)
    requires f.minutes != Some([]) && f.hours != Some([]) && f.daysOfMonth != Some([])
    requires f.months != Some([]) && f.daysOfWeek != Some([])
    ensures Tokens(FieldsText(f), Blanks) ==
      [TabText(f.minutes), TabText(f.hours), TabText(f.daysOfMonth), TabText(f.months), TabText(f.daysOfWeek)]
  {
    var parts := [TabText(f.minutes), TabText(f.hours), TabText(f.daysOfMonth), TabText(f.months), TabText(f.daysOfWeek)];
    TabTextPrintable(f.minutes);
    TabTextPrintable(f.hours);
    TabTextPrintable(f.daysOfMonth);
    TabTextPrintable(f.months);
    TabTextPrintable(f.daysOfWeek);
    forall k | 0 <= k < |parts|
      ensures 0 < |parts[k]| && NoneOf(parts[k], Blanks)
    {
    }
    assert AllOf(" ", Blanks);
    TokensOfJoin(parts, " ", Blanks);
  }

  /** A printed field that is not an empty array is non-empty and holds no blank. */
  lemma TabTextPrintable(tab: Option<seq<int>>)
    requires tab != Some([])
    ensures 0 < |TabText(tab)| && NoneOf(TabText(tab), Blanks)
  {
    if tab.Some? {
      var ns := Numerals(tab.value);
      forall j | 0 <= j < |ns|
        ensures NoneOf(ns[j], Blanks)
      {
        assert ns[j] == IntToString(tab.value[j]);
      }
      JoinNoneOf(ns, ",", Blanks);
      JoinNonEmpty(ns, ",");
    }
  }

  /** getTabInts: a new array holding the list's integers in the same order. */
  method GetTabInts(list: seq<int>) returns (ints: seq<int>)
    ensures |ints| == |list|
    ensures forall i | 0 <= i < |list| :: ints[i] == list[i]
  {
    var a := new int[|list|];
    var ii := 0;
    while ii < a.Length
      invariant 0 <= ii <= a.Length == |list|
      invariant forall j | 0 <= j < ii :: a[j] == list[j]
    {
      a[ii] := list[ii];
      ii := ii + 1;
    }
    ints := a[..];
  }

  /** tabToString: appends the field's text to the buffer sb, value by value. */
  method TabToString(tab: Option<seq<int>>, sb: string) returns (r: string)
    ensures r == sb + TabText(tab)
  {
    if tab.None? {
      return sb + "-1";
    }
    r := AppendValues(tab.value, sb);
  }

  /** The loop of tabToString: a comma before every value but the first. */
  method AppendValues(v: seq<int>, sb: string) returns (r: string)
    ensures r == sb + Join(Numerals(v), ",")
  {
    var parts := Numerals(v);
    r := sb;
    var ii := 0;
    assert sb + Join(parts[..0], ",") == sb;
    while ii < |v|
      invariant 0 <= ii <= |v|
      invariant r == sb + Join(parts[..ii], ",")
    {
      assert parts[ii] == IntToString(v[ii]);
      if ii > 0 {
        JoinPrefixStep(sb, parts, ii, ",");
        r := r + "," + IntToString(v[ii]);
      } else {
        assert parts[..1] == [parts[0]];
        r := r + IntToString(v[ii]);
      }
      ii := ii + 1;
    }
    assert parts[..|v|] == parts;
  }

  /** One more part appended to a buffer holding the first ii parts joined. */
  lemma JoinPrefixStep(sb: string, parts: seq<string>, ii: nat, sep: string)
    requires 0 < ii < |parts|
    ensures sb + Join(parts[..ii], sep) + sep + parts[ii] == sb + Join(parts[..ii + 1], sep)
  {
    JoinSnoc(parts[..ii], parts[ii], sep);
    assert parts[..ii + 1] == parts[..ii] + [parts[ii]];
    AppendThree(sb, Join(parts[..ii], sep), sep, parts[ii]);
  }

  lemma {:induction false} JoinSnoc(parts: seq<string>, p: string, sep: string)
    requires 0 < |parts|
    ensures Join(parts + [p], sep) == Join(parts, sep) + sep + p
  {
    if |parts| == 1 {
      assert (parts + [p])[1..] == [p];
    } else {
      assert (parts + [p])[1..] == parts[1..] + [p];
      JoinSnoc(parts[1..], p, sep);
    }
  }

  class CronParameter {
    var minutes: Option<seq<int>>
    var hours: Option<seq<int>>
    var daysOfMonth: Option<seq<int>>
    var months: Option<seq<int>>
    var daysOfWeek: Option<seq<int>>

    /** The five lists as one value. */
    function Fields(): CronFields
      reads this
    {
      CronFields(minutes, hours, daysOfMonth, months, daysOfWeek)
    }

    /** CronParameter(): every field is the wildcard. */
    constructor ()
      ensures Fields() == CronFields(Wildcard, Wildcard, Wildcard, Wildcard, Wildcard)
    {
      minutes, hours, daysOfMonth, months, daysOfWeek := Wildcard, Wildcard, Wildcard, Wildcard, Wildcard;
    }

    /** CronParameter(minutes, hours, daysOfMonth, months, daysOfWeek): the arrays as given. */
    constructor WithFields(minutes: Option<seq<int>>, hours: Option<seq<int>>, daysOfMonth: Option<seq<int>>,
                           months: Option<seq<int>>, daysOfWeek: Option<seq<int>>)
      ensures Fields() == CronFields(minutes, hours, daysOfMonth, months, daysOfWeek)
    {
      this.minutes, this.hours, this.daysOfMonth, this.months, this.daysOfWeek :=
        minutes, hours, daysOfMonth, months, daysOfWeek;
    }

    method SetMinutes(v: Option<seq<int>>)
      modifies this
      ensures Fields() == old(Fields()).(minutes := v)
    {
      minutes := v;
    }

    method SetHours(v: Option<seq<int>>)
      modifies this
      ensures Fields() == old(Fields()).(hours := v)
    {
      hours := v;
    }

    method SetDaysOfMonth(v: Option<seq<int>>)
      modifies this
      ensures Fields() == old(Fields()).(daysOfMonth := v)
    {
      daysOfMonth := v;
    }

    method SetMonths(v: Option<seq<int>>)
      modifies this
      ensures Fields() == old(Fields()).(months := v)
    {
      months := v;
    }

    method SetDaysOfWeek(v: Option<seq<int>>)
      modifies this
      ensures Fields() == old(Fields()).(daysOfWeek := v)
    {
      daysOfWeek := v;
    }

    /** The ArrayList setters: the field becomes a new array with the list's values. */
    method SetMinutesList(list: seq<int>)
      modifies this
      ensures Fields() == old(Fields()).(minutes := Some(list))
    {
      var ints := GetTabInts(list);
      assert ints == list;
      minutes := Some(ints);
    }

    method SetHoursList(list: seq<int>)
      modifies this
      ensures Fields() == old(Fields()).(hours := Some(list))
    {
      var ints := GetTabInts(list);
      assert ints == list;
      hours := Some(ints);
    }

    method SetDaysOfMonthList(list: seq<int>)
      modifies this
      ensures Fields() == old(Fields()).(daysOfMonth := Some(list))
    {
      var ints := GetTabInts(list);
      assert ints == list;
      daysOfMonth := Some(ints);
    }

    method SetMonthsList(list: seq<int>)
      modifies this
      ensures Fields() == old(Fields()).(months := Some(list))
    {
      var ints := GetTabInts(list);
      assert ints == list;
      months := Some(ints);
    }

    method SetDaysOfWeekList(list: seq<int>)
      modifies this
      ensures Fields() == old(Fields()).(daysOfWeek := Some(list))
    {
      var ints := GetTabInts(list);
      assert ints == list;
      daysOfWeek := Some(ints);
    }

    /** toString: each field through tabToString, with a space between neighbours. */
    method ToString() returns (s: string)
      ensures s == FieldsText(Fields())
    {
      s := TabToString(minutes, "");
      assert s == TabText(minutes);
      s := TabToString(hours, s + " ");
      s := TabToString(daysOfMonth, s + " ");
      s := TabToString(months, s + " ");
      s := TabToString(daysOfWeek, s + " ");
      JoinFive(TabText(minutes), TabText(hours), TabText(daysOfMonth), TabText(months), TabText(daysOfWeek));
    }
  }

  /** The five fields joined, in the order toString appends them to its buffer. */
  lemma JoinFive(a: string, b: string, c: string, d: string, e: string)
    ensures Join([a, b, c, d, e], " ") == a + " " + b + " " + c + " " + d + " " + e
  {
    var parts := [a, b, c, d, e];
    assert parts[4..] == [e];
    assert parts[3..][1..] == parts[4..];
    assert parts[2..][1..] == parts[3..];
    assert parts[1..][1..] == parts[2..];
    assert Join(parts[3..], " ") == d + " " + e;
    assert Join(parts[2..], " ") == c + " " + (d + " " + e);
    assert Join(parts[1..], " ") == b + " " + (c + " " + (d + " " + e));
  }
}
