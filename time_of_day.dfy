/**
 * TimeOfDay: an immutable (hours, minutes, seconds, millis) quadruple used as the start and
 * end of a daily window. The fields are plain ints; neither the constructors nor the parser
 * check their ranges.
 */
module TimeOfDays {
  import opened Wrappers
  import opened JavaLang
  import opened GregorianCalendar

  datatype TimeOfDay = TimeOfDay(hours: int, minutes: int, seconds: int, millis: int)

  /** Why the string constructor rejects its argument. */
  datatype ParseError =
    | EmptyString     // InvalidParameterException("Empty string")
    | BadPattern      // InvalidParameterException("Bad TimeOfDay pattern ...")
    | NumberFormat    // NumberFormatException from Integer.parseInt

  /** Fields within the ranges a calendar produces. */
  predicate Valid(d: TimeOfDay)
  {
    0 <= d.hours < 24 && 0 <= d.minutes < 60 && 0 <= d.seconds < 60 && 0 <= d.millis < 1000
  }

  /** TimeOfDay(Calendar): the time fields of an instant. */
  function TimeOfDayAt(t: int): (d: TimeOfDay)
    ensures Valid(d)
    ensures OffsetInDay(d) == MillisOfDay(t)
  {
    var x := MillisOfDay(t);
    DivMod(x / MillisPerMinute, x / MillisPerSecond % 60, 60);
    DivMod(x / MillisPerHour, x / MillisPerMinute % 60, 60);
    DivMod(x / MillisPerSecond, x % MillisPerSecond, MillisPerSecond);
    DivMod(x / MillisPerMinute, x % MillisPerMinute, MillisPerMinute);
    DivMod(x / MillisPerSecond / 60, x / MillisPerSecond % 60, 60);
    assert x / MillisPerSecond / 60 == x / MillisPerMinute;
    assert x / MillisPerMinute / 60 == x / MillisPerHour by {
      DivMod(x / MillisPerHour, x % MillisPerHour / MillisPerMinute, 60);
      DivMod(x / MillisPerHour * 60 + x % MillisPerHour / MillisPerMinute, x % MillisPerMinute, MillisPerMinute);
    }
    TimeOfDay(HourOfDay(t), Minute(t), Second(t), Millisecond(t))
  }

  /** Milliseconds since midnight that a time of day stands for. */
  function OffsetInDay(d: TimeOfDay): int
  {
    d.hours * MillisPerHour + d.minutes * MillisPerMinute + d.seconds * MillisPerSecond + d.millis
  }

  /** compareTo(TimeOfDay): lexicographic on (hours, minutes, seconds, millis), giving -1, 0 or 1. */
  function Compare(a: TimeOfDay, b: TimeOfDay): (r: int)
    ensures -1 <= r <= 1
  {
    if a.hours < b.hours then -1
    else if a.hours > b.hours then 1
    else if a.minutes < b.minutes then -1
    else if a.minutes > b.minutes then 1
    else if a.seconds < b.seconds then -1
    else if a.seconds > b.seconds then 1
    else if a.millis < b.millis then -1
    else if a.millis > b.millis then 1
    else 0
  }

  /** equals: the same class and all four fields equal. */
  predicate Equals(a: TimeOfDay, b: TimeOfDay)
  {
    a.hours == b.hours && a.minutes == b.minutes && a.seconds == b.seconds && a.millis == b.millis
  }

  /** compareTo is consistent with equals. */
  lemma CompareZeroIffEquals(a: TimeOfDay, b: TimeOfDay)
    ensures Compare(a, b) == 0 <==> Equals(a, b)
    ensures Equals(a, b) <==> a == b
  {
  }

  /** compareTo is antisymmetric and transitive: a total order. */
  lemma CompareIsOrder(a: TimeOfDay, b: TimeOfDay, c: TimeOfDay)
    ensures Compare(a, b) == -Compare(b, a)
    ensures Compare(a, b) <= 0 && Compare(b, c) <= 0 ==> Compare(a, c) <= 0
  {
  }

  /** On valid times the lexicographic order is the order of the instants within the day. */
  lemma CompareAsOffsets(a: TimeOfDay, b: TimeOfDay)
    requires Valid(a) && Valid(b)
    ensures Compare(a, b) < 0 <==> OffsetInDay(a) < OffsetInDay(b)
    ensures Compare(a, b) == 0 <==> OffsetInDay(a) == OffsetInDay(b)
  {
  }

  /** Two digits for 0..9 by prefixing "0"; Integer.toString otherwise. */
  function Pad2(n: int): string
  {
    if n < 10 then "0" + IntToString(n) else IntToString(n)
  }

  /** Three digits for 0..99 by prefixing "00" or "0"; Integer.toString otherwise. */
  function Pad3(n: int): string
  {
    if n < 10 then "00" + IntToString(n)
    else if n < 100 then "0" + IntToString(n)
    else IntToString(n)
  }

  /** toString: HH:MM:SS.mmm. */
  function ToString(d: TimeOfDay): string
  {
    Pad2(d.hours) + ":" + Pad2(d.minutes) + ":" + Pad2(d.seconds) + "." + Pad3(d.millis)
  }

  function ParseFields(h: string, m: string, s: string, ms: string): (r: Result<TimeOfDay, ParseError>)
  {
    match (ParseInt(h), ParseInt(m), ParseInt(s), ParseInt(ms))
    case (Some(hv), Some(mv), Some(sv), Some(msv)) => Success(TimeOfDay(hv, mv, sv, msv))
    case _ => Failure(NumberFormat)
  }

  /**
   * The field texts of TimeOfDay(String): split at the first colon, the next colon and the
   * next dot; a missing field is "0". None when the text does not start with a field and a colon.
   */
  function SplitFields(s: string): (r: Option<(string, string, string, string)>)
    ensures r.None? <==> IndexOf(s, ':', 0) <= 0
  {
    var firstColon := IndexOf(s, ':', 0);
    var secondColon := IndexOf(s, ':', firstColon + 1);
    var idx := IndexOf(s, '.', secondColon + 1);
    if firstColon > 0 && secondColon > 0 && idx > 0 && idx < |s| - 1 then
      Some((s[..firstColon], s[firstColon + 1..secondColon], s[secondColon + 1..idx], s[idx + 1..]))
    else if firstColon > 0 && secondColon > 0 && secondColon < |s| - 1 then
      Some((s[..firstColon], s[firstColon + 1..secondColon], s[secondColon + 1..], "0"))
    else if firstColon > 0 then
      Some((s[..firstColon], s[firstColon + 1..], "0", "0"))
    else
      None
  }

  /**
   * TimeOfDay(String): "H:M", "H:M:S" or "H:M:S.mmm"; missing fields are 0 and no range is
   * checked. None stands for a null string, refused like the empty one.
   */
  function Parse(s: Option<string>): (r: Result<TimeOfDay, ParseError>)
    ensures r == Failure(EmptyString) <==> s.None? || |s.value| == 0
    ensures r == Failure(BadPattern) <==> s.Some? && 0 < |s.value| && IndexOf(s.value, ':', 0) <= 0
  {
    if s.None? || |s.value| == 0 then Failure(EmptyString)
    else
      match SplitFields(s.value)
      case None => Failure(BadPattern)
      case Some(f) => ParseFields(f.0, f.1, f.2, f.3)
  }

  lemma Pad2Digits(n: int)
    requires 0 <= n < 100
    ensures |Pad2(n)| == 2 && AllDigits(Pad2(n)) && ParseInt(Pad2(n)) == Some(n)
  {
    if n < 10 {
      ParsePadded(n);
    } else {
      ParseIntToString(n);
    }
  }

  lemma Pad3Digits(n: int)
    requires 0 <= n < 1000
    ensures |Pad3(n)| == 3 && AllDigits(Pad3(n)) && ParseInt(Pad3(n)) == Some(n)
  {
    if n < 10 {
      ParseDoublePadded(n);
    } else if n < 100 {
      ParsePadded(n);
    } else {
      ParseIntToString(n);
    }
  }

  /** For in-range fields, parsing the printed text gives the same time of day back. */
  lemma ParseToString(d: TimeOfDay)
    requires Valid(d)
    ensures Parse(Some(ToString(d))) == Success(d)
  {
    Pad2Digits(d.hours);
    Pad2Digits(d.minutes);
    Pad2Digits(d.seconds);
    Pad3Digits(d.millis);
    ToStringSplits(d);
  }

  /** The printed text splits back into its four padded fields. */
  lemma ToStringSplits(d: TimeOfDay)
    requires Valid(d)
    ensures SplitFields(ToString(d)) == Some((Pad2(d.hours), Pad2(d.minutes), Pad2(d.seconds), Pad3(d.millis)))
  {
    Pad2Digits(d.hours);
    Pad2Digits(d.minutes);
    Pad2Digits(d.seconds);
    Pad3Digits(d.millis);
    SplitLayout(Pad2(d.hours), Pad2(d.minutes), Pad2(d.seconds), Pad3(d.millis));
  }

  /** "hh:mm:ss.mmm" with digit fields splits into exactly those fields. */
  lemma SplitLayout(h: string, m: string, sec: string, ms: string)
    requires |h| == 2 && |m| == 2 && |sec| == 2 && |ms| == 3
    requires AllDigits(h) && AllDigits(m) && AllDigits(sec)
    ensures SplitFields(h + ":" + m + ":" + sec + "." + ms) == Some((h, m, sec, ms))
  {
    var s := h + ":" + m + ":" + sec + "." + ms;
    assert s[..2] == h && s[3..5] == m && s[6..8] == sec && s[9..] == ms;
    assert s[2] == ':' && s[5] == ':' && s[8] == '.';
    assert IsDigit(s[0]) && IsDigit(s[1]) && IsDigit(s[3]) && IsDigit(s[4]) && IsDigit(s[6]) && IsDigit(s[7]);
    assert IndexOf(s, ':', 1) == 2;
    assert IndexOf(s, ':', 0) == 2;
    assert IndexOf(s, ':', 4) == 5;
    assert IndexOf(s, ':', 3) == 5;
    assert IndexOf(s, '.', 7) == 8;
    assert IndexOf(s, '.', 6) == 8;
    ParseAllFields(s, 2, 5, 8);
  }

  /** A text with two colons and a dot after them, the dot not last, is read as four fields. */
  lemma ParseAllFields(s: string, c1: int, c2: int, dot: int)
    requires 0 < c1 < c2 < dot < |s| - 1
    requires IndexOf(s, ':', 0) == c1 && IndexOf(s, ':', c1 + 1) == c2 && IndexOf(s, '.', c2 + 1) == dot
    ensures SplitFields(s) == Some((s[..c1], s[c1 + 1..c2], s[c2 + 1..dot], s[dot + 1..]))
  {
  }

  /** A text with one colon, not first, is read as hours and minutes. */
  lemma ParseTwoFields(s: string, c1: int)
    requires 0 < c1 < |s|
    requires IndexOf(s, ':', 0) == c1 && IndexOf(s, ':', c1 + 1) == -1
    ensures SplitFields(s) == Some((s[..c1], s[c1 + 1..], "0", "0"))
  {
  }

  /** "H:M" leaves seconds and millis at 0, and no range is checked. */
  lemma ParseHoursMinutes(h: nat, m: nat)
    requires h <= IntMax && m <= IntMax
    ensures Parse(Some(NatToString(h) + ":" + NatToString(m))) == Success(TimeOfDay(h, m, 0, 0))
  {
    var hs, ms := NatToString(h), NatToString(m);
    var s := hs + ":" + ms;
    ColonAt(hs, ms);
    ParseTwoFields(s, |hs|);
    assert s[..|hs|] == hs && s[|hs| + 1..] == ms;
    ParseIntToString(h);
    ParseIntToString(m);
    ParseIntToString(0);
    assert NatToString(0) == "0";
  }

  lemma ColonAt(hs: string, ms: string)
    requires 0 < |hs| && AllDigits(hs) && AllDigits(ms)
    ensures IndexOf(hs + ":" + ms, ':', 0) == |hs|
    ensures IndexOf(hs + ":" + ms, ':', |hs| + 1) == -1
  {
    var s := hs + ":" + ms;
    IndexOfFirst(s, ':', 0);
    IndexOfFirst(s, ':', |hs| + 1);
    assert s[|hs|] == ':';
    assert forall j | 0 <= j < |hs| :: s[j] == hs[j];
    assert forall j | |hs| + 1 <= j < |s| :: s[j] == ms[j - |hs| - 1];
  }
}
