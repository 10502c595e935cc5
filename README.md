# jdring scheduling core in Dafny

jdring is a small Java alarm scheduler. A caller registers alarms with an `AlarmManager`.
Each alarm is an `AlarmEntry` of one of six kinds:

- a one-shot `DateAlarm`;
- a repeating `TimerAlarm`;
- a `DailyAlarm` that rings every `period` minutes inside a daily window;
- `WeeklyAlarm` and `MonthlyAlarm`, which put that window on chosen days;
- a `CronAlarm`, driven by five cron-style field lists (minutes, hours, days of month, months, days of week).

The manager keeps the alarms in a `TreeSet` ordered by `AlarmEntry.compareTo`. When the first
alarm is due, the manager rings it, asks the entry for its next alarm time (`nextAlarm`), and
puts it back when there is one.

This project models that core:

- the field-list primitives of `AlarmUtils` (membership, offset to the next accepted value, truncation, last-day substitution, printing);
- the `SchedulingPattern` parser for cron text, and `CronParameter` with its printing;
- the `TimeOfDay` value;
- the entry rules of `AlarmEntry`: admission, `compareTo`, `equals`, the update step, and the forward correction `checkDateAlarm`;
- the constructor and `nextAlarm` of every kind of alarm;
- the queue operations of `AlarmManager`.

Each module is written in the form of its source:

- Pure code becomes functions and lemmas.
- Loops become methods with invariants. Each method is proved equal to a function that states what it computes, and the source's promises are proved about that function.
- `AlarmEntry` and `CronParameter` are classes whose methods update their fields.
- The manager is a class whose queue field the methods reassign.

Time is an integer number of milliseconds since 1970-01-01 00:00 UTC. The module
`GregorianCalendar` derives the calendar fields from it as `java.util.Calendar` does in
UTC: month 0..11, day of the week 1 (Sunday) .. 7 (Saturday), lenient `set` and `add`. The
clock reading `now` is a parameter of every operation that reads the clock. The random UUID
of an entry is given as its place in UUID order together with its text.

Java exceptions become `Result`/`Outcome` values:

- `PastDateException`, `InvalidParameterException` and runtime faults are kinds of `AlarmError`.
- The runtime faults are `ArrayIndexOutOfBoundsException`, `NullPointerException`, and a loop that never exits.

Each loop that the source may never leave is given a bound. Past the bound it reports `Diverges`.

Modules, one file each:

| File | Module |
|---|---|
| `wrappers.dfy` | `Wrappers` |
| `java_lang.dfy` | `JavaLang`: int arithmetic, `Integer.toString`/`parseInt`, `StringTokenizer`, string comparison |
| `gregorian_calendar.dfy` | `GregorianCalendar` |
| `alarm_utils.dfy` | `AlarmUtils` |
| `time_of_day.dfy` | `TimeOfDays` |
| `cron_parameter.dfy` | `CronParameters` |
| `scheduling_pattern.dfy` | `SchedulingPatterns` |
| `entry_rules.dfy` | `EntryRules`: admission, `compareTo`, `checkDateAlarm` |
| `timer_alarm.dfy` | `TimerAlarms` |
| `daily_alarm.dfy` | `DailyAlarms` |
| `weekly_alarm.dfy` | `WeeklyAlarms` |
| `monthly_alarm.dfy` | `MonthlyAlarms` |
| `cron_alarm.dfy` | `CronAlarms` |
| `alarms.dfy` | `Alarms`: the `AlarmEntry` class, the constructors of the six kinds, `nextAlarm` dispatch |
| `alarm_manager.dfy` | `AlarmManagers` |

## Model

All source paths are under `src/com/jtheory/jdring/`.

| member | source | states |
|---|---|---|
| AlarmUtils.IsIn | src/com/jtheory/jdring/AlarmUtils.java:36-49 | isIn holds exactly when the list is empty, starts with the wildcard -1, or contains the value |
| AlarmUtils.Occurs | src/com/jtheory/jdring/AlarmUtils.java:43-47 | the scanning loop from position i finds the value exactly when it occurs in the rest of the list |
| AlarmUtils.IsInDay | src/com/jtheory/jdring/AlarmUtils.java:51-66 | as isIn, and a list holding 32 also accepts the month's last day |
| AlarmUtils.OccursDay | src/com/jtheory/jdring/AlarmUtils.java:58-63 | the day scan from position i accepts a listed value, or the last day when 32 is in the rest |
| AlarmUtils.Last | src/com/jtheory/jdring/AlarmUtils.java:153-155 | last fails (index out of bounds) exactly on an empty array, else it is the final element |
| AlarmUtils.OffsetToNext | src/com/jtheory/jdring/AlarmUtils.java:72-97 | getOffsetToNext fails exactly on an empty list; the wildcard gives 1; at or past the last value it wraps (max-current+1)+(first-min); otherwise it is a positive distance to the first listed value above current |
| AlarmUtils.OffsetToNextIsNext | src/com/jtheory/jdring/AlarmUtils.java:68-97 | on an ascending in-range list the offset is positive, at most one turn of the range, lands on a listed value, and skips none |
| AlarmUtils.OffsetToNextExamples | src/com/jtheory/jdring/AlarmUtils.java:68-97 | the offsets (3,0,11,{3,5,7,9}) = 2, (9,0,11,{3,5,7,9}) = 6 and (0,0,11,{0}) = 12 |
| AlarmUtils.Discarded | src/com/jtheory/jdring/AlarmUtils.java:138-148 | the kept list is the prefix up to the first value over max: all of it at most max, the next value over max |
| AlarmUtils.DiscardValuesOverMax | src/com/jtheory/jdring/AlarmUtils.java:138-148 | the scan-and-copy loop yields exactly that prefix |
| AlarmUtils.DiscardedUnique | src/com/jtheory/jdring/AlarmUtils.java:138-148 | any prefix with those three properties is the kept list |
| AlarmUtils.DiscardedAscending | src/com/jtheory/jdring/AlarmUtils.java:133-148 | on an ascending list the kept values are exactly the listed values up to max |
| AlarmUtils.ScanSafe | src/com/jtheory/jdring/AlarmUtils.java:121-126 | the loop over the truncated list returns the distance to its first value above current when there is one |
| AlarmUtils.OrEqualCases | src/com/jtheory/jdring/AlarmUtils.java:103-131 | getOffsetToNextOrEqual fails exactly on an empty list or when no value is left within max; it gives 0 on an accepted value; otherwise it wraps to the first value or moves a positive distance to a listed value |
| AlarmUtils.OffsetToNextOrEqualIsNext | src/com/jtheory/jdring/AlarmUtils.java:99-131 | on an ascending list bounded below with its first value within max, the offset succeeds, stays under one turn, lands on the nearest accepted value at or after current, and skips none |
| AlarmUtils.OffsetToNextOrEqual | src/com/jtheory/jdring/AlarmUtils.java:99-131 | the definition of getOffsetToNextOrEqual; OrEqualCases proves its failure and zero cases and OffsetToNextOrEqualIsNext that it moves to the nearest accepted value |
| AlarmUtils.IsNextWhenListed | src/com/jtheory/jdring/AlarmUtils.java:110-111 | from a listed value the offset is 0 and that value is the nearest |
| AlarmUtils.IsNextWhenWrapping | src/com/jtheory/jdring/AlarmUtils.java:116-118 | past the last value within max the offset goes round to the first listed value, skipping none |
| AlarmUtils.OrEqualWraps | src/com/jtheory/jdring/AlarmUtils.java:116-118 | the wrap offset lands on the first value and no value lies on the way |
| AlarmUtils.IsNextWhenScanning | src/com/jtheory/jdring/AlarmUtils.java:119-126 | before the last value within max the offset reaches the nearest listed value above current |
| AlarmUtils.ScanValue | src/com/jtheory/jdring/AlarmUtils.java:119-126 | there the offset is the scan's first value above current minus current |
| AlarmUtils.OrEqualScans | src/com/jtheory/jdring/AlarmUtils.java:119-126 | the scan's value is listed, at most one turn away, and nothing is listed before it |
| AlarmUtils.OrEqualWithinRange | src/com/jtheory/jdring/AlarmUtils.java:119-126 | with a listed value v ahead within max, the offset stops at the first listed value on the way, never past v |
| AlarmUtils.OffsetLands | src/com/jtheory/jdring/AlarmUtils.java:103-131 | on any list without values below min, a successful offset lands on a listed value, under two turns of the range |
| AlarmUtils.NormalizedDays | src/com/jtheory/jdring/WeeklyAlarm.java:46-51 | the stored day list is never empty |
| AlarmUtils.NormalizeDays | src/com/jtheory/jdring/WeeklyAlarm.java:46-51 | sort, discardValuesOverMax, then {-1} for an empty result: the normalized list |
| AlarmUtils.NormalizedDaysContents | src/com/jtheory/jdring/MonthlyAlarm.java:47-52 | the stored list is ascending, within max, and either the wildcard or exactly the given days up to max |
| AlarmUtils.SortInts | src/com/jtheory/jdring/WeeklyAlarm.java:46 | Arrays.sort gives an ascending permutation of the days |
| AlarmUtils.InsertSorted | src/com/jtheory/jdring/WeeklyAlarm.java:46 | each insertion step keeps the list ascending and adds exactly one value |
| AlarmUtils.LastDaySubstituted | src/com/jtheory/jdring/AlarmUtils.java:172-184 | the substituted list has the length of the original |
| AlarmUtils.GetDaysOfMonth | src/com/jtheory/jdring/AlarmUtils.java:172-184 | the copy-then-overwrite loop gives the list with each 32 replaced by the last day, all else unchanged |
| AlarmUtils.SubstitutedMembership | src/com/jtheory/jdring/AlarmUtils.java:172-184 | for real days, isIn on the substituted list is the three-argument isIn on the original |
| AlarmUtils.Numerals | src/com/jtheory/jdring/AlarmUtils.java:157-170 | one numeral per value |
| AlarmUtils.ArrToString | src/com/jtheory/jdring/AlarmUtils.java:157-170 | the StringBuilder loop prints "null" for null, else the values joined by ", " |
| AlarmUtils.ListTextRoundTrip | src/com/jtheory/jdring/AlarmUtils.java:157-170 | splitting the printed text at commas and blanks and parsing each piece gives the int array back |
| TimeOfDays.TimeOfDayAt | src/com/jtheory/jdring/TimeOfDay.java:31-36 | the time fields of an instant are in range and stand for its offset within the day |
| TimeOfDays.Compare | src/com/jtheory/jdring/TimeOfDay.java:122-142 | compareTo answers -1, 0 or 1 |
| TimeOfDays.CompareIsOrder | src/com/jtheory/jdring/TimeOfDay.java:122-142 | compareTo is antisymmetric and transitive |
| TimeOfDays.CompareAsOffsets | src/com/jtheory/jdring/TimeOfDay.java:122-142 | on in-range fields, compareTo orders times as their offsets within the day |
| TimeOfDays.Equals | src/com/jtheory/jdring/TimeOfDay.java:159-176 | the definition of equals; CompareZeroIffEquals proves it holds exactly when compareTo answers 0 |
| TimeOfDays.CompareZeroIffEquals | src/com/jtheory/jdring/TimeOfDay.java:159-176 | equals holds exactly when compareTo answers 0, and exactly when all four fields agree |
| TimeOfDays.SplitFields | src/com/jtheory/jdring/TimeOfDay.java:67-88 | the text is split into fields exactly when a colon follows a non-empty first field |
| TimeOfDays.Parse | src/com/jtheory/jdring/TimeOfDay.java:59-89 | a null (None) or empty text is refused as empty, and only those; a non-empty text is refused as malformed exactly when no colon follows a non-empty first field |
| TimeOfDays.ParseAllFields | src/com/jtheory/jdring/TimeOfDay.java:71-75 | "H:M:S.mmm" sets all four fields from the text between the separators |
| TimeOfDays.ParseTwoFields | src/com/jtheory/jdring/TimeOfDay.java:81-85 | "H:M" leaves seconds and millis at "0" |
| TimeOfDays.ParseHoursMinutes | src/com/jtheory/jdring/TimeOfDay.java:81-85 | "H:M" with any numbers gives (H, M, 0, 0): no range check |
| TimeOfDays.Pad2Digits | src/com/jtheory/jdring/TimeOfDay.java:187-200 | two-digit padding of 0..99 is two digits that parse back |
| TimeOfDays.Pad3Digits | src/com/jtheory/jdring/TimeOfDay.java:202-207 | three-digit padding of 0..999 is three digits that parse back |
| TimeOfDays.ToString | src/com/jtheory/jdring/TimeOfDay.java:181-209 | the definition of toString; ToStringSplits and ParseToString prove that it prints four padded fields that parse back |
| TimeOfDays.ToStringSplits | src/com/jtheory/jdring/TimeOfDay.java:181-209 | toString splits back into its four padded fields |
| TimeOfDays.ParseToString | src/com/jtheory/jdring/TimeOfDay.java:181-209 | for in-range fields, parsing toString's text gives the same time back |
| CronParameters.CronParameter.constructor | src/com/jtheory/jdring/CronParameter.java:29-31 | a new parameter has all five fields equal to the wildcard {-1} |
| CronParameters.CronParameter.WithFields | src/com/jtheory/jdring/CronParameter.java:33-39 | the five arrays are stored as given |
| CronParameters.GetTabInts | src/com/jtheory/jdring/CronParameter.java:41-47 | the array has the list's length and its integers in order |
| CronParameters.CronParameter.SetMinutes | src/com/jtheory/jdring/CronParameter.java:165-167 | only the minutes change |
| CronParameters.CronParameter.SetMinutesList | src/com/jtheory/jdring/CronParameter.java:161-163 | only the minutes change, to the list's values |
| CronParameters.CronParameter.SetHours | src/com/jtheory/jdring/CronParameter.java:145-147 | only the hours change |
| CronParameters.CronParameter.SetHoursList | src/com/jtheory/jdring/CronParameter.java:153-155 | only the hours change, to the list's values |
| CronParameters.CronParameter.SetDaysOfMonth | src/com/jtheory/jdring/CronParameter.java:113-115 | only the days of month change |
| CronParameters.CronParameter.SetDaysOfMonthList | src/com/jtheory/jdring/CronParameter.java:121-123 | only the days of month change, to the list's values |
| CronParameters.CronParameter.SetMonths | src/com/jtheory/jdring/CronParameter.java:173-175 | only the months change |
| CronParameters.CronParameter.SetMonthsList | src/com/jtheory/jdring/CronParameter.java:181-183 | only the months change, to the list's values |
| CronParameters.CronParameter.SetDaysOfWeek | src/com/jtheory/jdring/CronParameter.java:129-131 | only the days of week change |
| CronParameters.CronParameter.SetDaysOfWeekList | src/com/jtheory/jdring/CronParameter.java:137-139 | only the days of week change, to the list's values |
| CronParameters.CronParameter.ToString | src/com/jtheory/jdring/CronParameter.java:185-198 | toString appends the five fields in pattern order with single spaces between them |
| CronParameters.TabToString | src/com/jtheory/jdring/CronParameter.java:200-211 | tabToString appends "-1" for null, else the values joined by commas |
| CronParameters.AppendValues | src/com/jtheory/jdring/CronParameter.java:204-208 | the loop appends a comma before every value but the first |
| CronParameters.NullPrintsAsWildcard | src/com/jtheory/jdring/CronParameter.java:201-202 | a null field prints like the wildcard |
| CronParameters.TabTextPrintable | src/com/jtheory/jdring/CronParameter.java:200-211 | a printed field that is not an empty array is non-empty and has no blank |
| CronParameters.TabTextRoundTrip | src/com/jtheory/jdring/CronParameter.java:200-211 | splitting a printed field at its commas and parsing the pieces gives the int array back |
| CronParameters.FieldsTextRoundTrip | src/com/jtheory/jdring/CronParameter.java:185-198 | splitting the printed parameter at its blanks gives back the five printed fields, in order |
| SchedulingPatterns.SimpleParse | src/com/jtheory/jdring/SchedulingPattern.java:441-452 | every rejection is InvalidParameter |
| SchedulingPatterns.NumeralParses | src/com/jtheory/jdring/SchedulingPattern.java:441-452 | a numeral parses to its value when it lies in the parser's min..max, and is rejected otherwise |
| SchedulingPatterns.AliasFrom | src/com/jtheory/jdring/SchedulingPattern.java:372-379 | every rejection is InvalidParameter; the match is equalsIgnoreCase, which also takes the long s, the dotless i, the capital I with dot above and the Kelvin sign for s, i and k (NonAsciiWeekdaysParse, NonAsciiMonthParses) |
| SchedulingPatterns.ParseAlias | src/com/jtheory/jdring/SchedulingPattern.java:372-379 | the loop over the aliases computes the alias search |
| SchedulingPatterns.AliasFromFindsFirst | src/com/jtheory/jdring/SchedulingPattern.java:372-379 | parseAlias gives offset plus the first position whose alias equals the value under equalsIgnoreCase, and fails exactly when none does |
| SchedulingPatterns.LastDayParses | src/com/jtheory/jdring/SchedulingPattern.java:513-519 | a day-of-month value parses to 32 exactly when it is "L" in either case |
| SchedulingPatterns.MonthAliasesLowerDistinct | src/com/jtheory/jdring/SchedulingPattern.java:531 | the month aliases are distinct lower-case words |
| SchedulingPatterns.MonthAliasParses | src/com/jtheory/jdring/SchedulingPattern.java:540-548 | jan..dec in any case parse to 0..11 |
| SchedulingPatterns.WeekdayAliasesLowerDistinct | src/com/jtheory/jdring/SchedulingPattern.java:560 | the weekday aliases are distinct lower-case words |
| SchedulingPatterns.WeekdayAliasParses | src/com/jtheory/jdring/SchedulingPattern.java:569-577 | sun..sat in any case parse to 1..7 |
| JavaLang.LetterEqualsIgnoreCase | src/com/jtheory/jdring/SchedulingPattern.java:374 | a lower-case ASCII letter equals a character under equalsIgnoreCase exactly when it is the letter, its capital, or the long s (for s), the dotless i or capital I with dot above (for i), or the Kelvin sign (for k) |
| SchedulingPatterns.NonAsciiWeekdaysParse | src/com/jtheory/jdring/SchedulingPattern.java:372-379 | "ſun" parses to Sunday (1), "frı" and "FRİ" to Friday (6), as equalsIgnoreCase matches them |
| SchedulingPatterns.NonAsciiMonthParses | src/com/jtheory/jdring/SchedulingPattern.java:372-379 | "ſep" parses to September (8) |
| SchedulingPatterns.ParseWith | src/com/jtheory/jdring/SchedulingPattern.java:441-579 | every value-parser rejection is InvalidParameter |
| SchedulingPatterns.Parse | src/com/jtheory/jdring/SchedulingPattern.java:441-579 | the parse method of each value parser computes ParseWith |
| SchedulingPatterns.ParsedValueInRange | src/com/jtheory/jdring/SchedulingPattern.java:441-579 | every parsed value lies in its parser's range (minutes 0-59, hours 0-23, days 1-31 or 32, months 0-11, weekdays 1-7) |
| SchedulingPatterns.Interval | src/com/jtheory/jdring/SchedulingPattern.java:308-310 | lo..hi holds hi-lo+1 values counting up from lo |
| SchedulingPatterns.AddInterval | src/com/jtheory/jdring/SchedulingPattern.java:339-341 | the counting loop appends exactly lo..hi |
| SchedulingPatterns.RangeValuesMembers | src/com/jtheory/jdring/SchedulingPattern.java:337-355 | a range a-b holds exactly a..b, or a..max and min..b when b < a |
| SchedulingPatterns.AddRange | src/com/jtheory/jdring/SchedulingPattern.java:337-355 | the three value loops compute the range's values |
| SchedulingPatterns.RangeOf | src/com/jtheory/jdring/SchedulingPattern.java:303-357 | every range rejection is InvalidParameter |
| SchedulingPatterns.ParseRange | src/com/jtheory/jdring/SchedulingPattern.java:303-357 | parseRange computes RangeOf |
| SchedulingPatterns.RangeInBounds | src/com/jtheory/jdring/SchedulingPattern.java:303-357 | a parsed range is non-empty and within the parser's range |
| SchedulingPatterns.StepValues | src/com/jtheory/jdring/SchedulingPattern.java:282-286 | the step loop keeps the values at positions 0, c, 2c, ... |
| SchedulingPatterns.SteppedPositions | src/com/jtheory/jdring/SchedulingPattern.java:282-286 | position k of the stepped list is position k*c of the list, and no multiple of c is skipped |
| SchedulingPatterns.SteppedStep | src/com/jtheory/jdring/SchedulingPattern.java:282-286 | one round of the step loop takes the value at i and goes on from i+c |
| SchedulingPatterns.SteppedInterval | src/com/jtheory/jdring/SchedulingPattern.java:282-286 | lo-hi/c holds exactly the values of lo..hi at a multiple of c above lo |
| SchedulingPatterns.SteppedInBounds | src/com/jtheory/jdring/SchedulingPattern.java:282-286 | a step keeps the list in range and keeps at least its first value |
| SchedulingPatterns.ElementOf | src/com/jtheory/jdring/SchedulingPattern.java:259-290 | every element rejection is InvalidParameter |
| SchedulingPatterns.ParseListElement | src/com/jtheory/jdring/SchedulingPattern.java:259-290 | parseListElement computes ElementOf: a range, optionally stepped by a positive int |
| SchedulingPatterns.ElementInBounds | src/com/jtheory/jdring/SchedulingPattern.java:259-290 | a parsed element is non-empty and within range |
| SchedulingPatterns.Gathered | src/com/jtheory/jdring/SchedulingPattern.java:225-240 | every failure while gathering the elements is InvalidParameter |
| SchedulingPatterns.GatheredSnoc | src/com/jtheory/jdring/SchedulingPattern.java:225-240 | one more element fails the field or adds its values at the end |
| SchedulingPatterns.GatheredInBounds | src/com/jtheory/jdring/SchedulingPattern.java:225-240 | gathered values are within range, and none exist exactly when there are no elements |
| SchedulingPatterns.DedupMembers | src/com/jtheory/jdring/SchedulingPattern.java:234-239 | dropping repeats keeps every value, adds none, and leaves no value twice |
| SchedulingPatterns.DedupPrefix | src/com/jtheory/jdring/SchedulingPattern.java:234-239 | later values never reorder those already kept: first occurrences win |
| SchedulingPatterns.DedupDistinct | src/com/jtheory/jdring/SchedulingPattern.java:234-239 | a list without repeats is kept as it is |
| SchedulingPatterns.DedupInBounds | src/com/jtheory/jdring/SchedulingPattern.java:234-239 | dropping repeats keeps the list in range, without repeats, and empty only when it was |
| SchedulingPatterns.AddValues | src/com/jtheory/jdring/SchedulingPattern.java:234-239 | the contains-then-add loop extends the deduplicated list by an element's values |
| SchedulingPatterns.GatherElement | src/com/jtheory/jdring/SchedulingPattern.java:226-239 | one round of the element loop keeps the gathered list and its deduplicated form in step |
| SchedulingPatterns.GatherElements | src/com/jtheory/jdring/SchedulingPattern.java:225-240 | the element loop succeeds exactly when gathering does, giving the gathered values without repeats |
| SchedulingPatterns.FieldOf | src/com/jtheory/jdring/SchedulingPattern.java:219-246 | every field rejection is InvalidParameter |
| SchedulingPatterns.ParseValue | src/com/jtheory/jdring/SchedulingPattern.java:219-246 | parseValue computes FieldOf |
| SchedulingPatterns.FieldShape | src/com/jtheory/jdring/SchedulingPattern.java:219-246 | "*" gives {-1}; any other field is a non-empty, repeat-free, in-range list of exactly its elements' values; a field fails exactly when an element fails or none exists |
| SchedulingPatterns.ListOrderKept | src/com/jtheory/jdring/SchedulingPattern.java:225-240 | lists are kept in the order written: "5,3" gives {5, 3} |
| SchedulingPatterns.CronPattern | src/com/jtheory/jdring/SchedulingPattern.java:154-186 | every pattern rejection is InvalidParameter |
| SchedulingPatterns.ParseCron | src/com/jtheory/jdring/SchedulingPattern.java:154-186 | parseCron succeeds exactly when the pattern parses, into a new CronParameter holding the five parsed fields |
| SchedulingPatterns.FivePatternFields | src/com/jtheory/jdring/SchedulingPattern.java:154-186 | five blank-separated fields that each parse give a pattern with those fields |
| SchedulingPatterns.ParseDayOfMonths | src/com/jtheory/jdring/SchedulingPattern.java:188-196 | one day-of-month field, parsed |
| SchedulingPatterns.ParseDayOfWeeks | src/com/jtheory/jdring/SchedulingPattern.java:198-206 | one day-of-week field, parsed |
| SchedulingPatterns.PatternFieldsInRange | src/com/jtheory/jdring/SchedulingPattern.java:154-186 | every field of a parsed pattern is the wildcard or within the range the cron search expects |
| SchedulingPatterns.ParsedPatternNextAlarm | src/com/jtheory/jdring/CronAlarm.java:132-216 | for a parsed pattern, a next alarm has an accepted minute and hour, is not before the clock (seconds set to 2), and comes after a previous alarm still ahead of the clock |
| SchedulingPatterns.FieldTextRoundTrip | src/com/jtheory/jdring/SchedulingPattern.java:219-246 | a non-empty, repeat-free, in-range field printed by CronParameter reads back as itself |
| SchedulingPatterns.PatternTextRoundTrip | src/com/jtheory/jdring/SchedulingPattern.java:154-186 | parseCron reads back what CronParameter.toString prints, for such fields |
| SchedulingPatterns.PrintedWildcardReadsAsOne | src/com/jtheory/jdring/SchedulingPattern.java:313-328 | a printed wildcard "-1" reads back as {1}, not {-1} |
| SchedulingPatterns.DashOneElement | src/com/jtheory/jdring/SchedulingPattern.java:313-328 | "-1" is a range with the one bound 1 |
| EntryRules.CheckAlarmTime | src/com/jtheory/jdring/AlarmEntry.java:41-47 | checkAlarmTime passes exactly when the alarm is more than 1000 ms ahead of the clock, else PastDate |
| EntryRules.CompareKeys | src/com/jtheory/jdring/AlarmEntry.java:71-86 | compareTo answers 0 exactly on equal keys (alarm time, last update, UUID, name) |
| EntryRules.CompareKeysAntisymmetric | src/com/jtheory/jdring/AlarmEntry.java:71-86 | compareTo is antisymmetric |
| EntryRules.CompareKeysTransitive | src/com/jtheory/jdring/AlarmEntry.java:71-86 | compareTo is transitive |
| EntryRules.EarlierFirst | src/com/jtheory/jdring/AlarmEntry.java:74-77 | an earlier alarm time always orders first |
| EntryRules.MovedToDay | src/com/jtheory/jdring/AlarmEntry.java:219-224 | moving to the clock's year and day never goes back and keeps the time of day |
| EntryRules.PeriodMinutes | src/com/jtheory/jdring/AlarmEntry.java:226-229 | the whole periods added are never negative |
| EntryRules.Realigned | src/com/jtheory/jdring/AlarmEntry.java:219-230 | the first half of checkDateAlarm never moves back and leaves an alarm not before the clock alone |
| EntryRules.FirstOnGrid | src/com/jtheory/jdring/AlarmEntry.java:232-234 | the closing loop's result is not before the start nor the clock, is the start itself when that is not before the clock, and otherwise lies less than one period past the clock |
| EntryRules.StepPast | src/com/jtheory/jdring/AlarmEntry.java:232-234 | the closing loop adds the period until the alarm is not before the clock |
| EntryRules.Checked | src/com/jtheory/jdring/AlarmEntry.java:215-235 | checkDateAlarm only moves forward, ends not before the clock with seconds set to 2, and leaves an alarm already there alone |
| EntryRules.CheckDateAlarm | src/com/jtheory/jdring/AlarmEntry.java:215-235 | checkDateAlarm computes Checked |
| EntryRules.CheckedOnWholeMinute | src/com/jtheory/jdring/AlarmEntry.java:215-235 | checkDateAlarm keeps an alarm on a whole minute |
| Alarms.AlarmEntry.constructor | src/com/jtheory/jdring/AlarmEntry.java:26-31 | a new entry has alarm time 0, last update 0, no name, not dedicated; it repeats as its kind says; its nextAlarm is its kind's |
| Alarms.AlarmEntry.SetAlarmTime | src/com/jtheory/jdring/AlarmEntry.java:168-171 | the alarm time is set and the last update becomes the clock reading |
| Alarms.AlarmEntry.SetName | src/com/jtheory/jdring/AlarmEntry.java:177-181 | the name is set, or becomes the UUID text for null |
| Alarms.AlarmEntry.SetRingInDedicatedThread | src/com/jtheory/jdring/AlarmEntry.java:187-189 | only the flag changes |
| Alarms.AlarmEntry.UpdateAlarmTime | src/com/jtheory/jdring/AlarmEntry.java:194-208 | true and the new time exactly when the entry repeats and nextAlarm is positive; false and nothing changed otherwise; nextAlarm's exception is passed on |
| Alarms.Equals | src/com/jtheory/jdring/AlarmEntry.java:88-106 | the definition of equals as written; EqualsDisagreesWithCompare proves that it never agrees with compareTo |
| Alarms.EqualsDisagreesWithCompare | src/com/jtheory/jdring/AlarmEntry.java:88-106 | equals as written never holds when compareTo answers 0, and when it holds the keys differ in the UUID alone |
| Alarms.NextAlarm | src/com/jtheory/jdring/AlarmEntry.java:154 | each kind's nextAlarm computes its own specification |
| Alarms.FirstUpdate | src/com/jtheory/jdring/AlarmEntry.java:194-208 | the constructors' first updateAlarmTime: fails exactly when a repeating entry's nextAlarm throws; else the entry takes a positive next time or keeps its own, name and flag untouched |
| Alarms.NewDateAlarm | src/com/jtheory/jdring/DateAlarm.java:39-50 | PastDate exactly when the date is not more than 1000 ms ahead; else a one-shot entry at the date |
| Alarms.DateAlarmHasNoNext | src/com/jtheory/jdring/DateAlarm.java:52-54 | a date alarm never repeats and its nextAlarm is -1 |
| TimerAlarms.MinutesToMillis | src/com/jtheory/jdring/TimerAlarm.java:50 | minutes*60000 as a wrapping int: always an int, the true product without overflow |
| TimerAlarms.StoredDelay | src/com/jtheory/jdring/TimerAlarm.java:45 | a negative delay is stored as 0, any other as given |
| TimerAlarms.FirstAlarmAdmitted | src/com/jtheory/jdring/TimerAlarm.java:50 | without overflow, addAlarm admits a new timer exactly when its delay is positive |
| TimerAlarms.FirstAlarmOverflows | src/com/jtheory/jdring/TimerAlarm.java:50 | a 40000-minute delay wraps and puts the first alarm before the clock |
| Alarms.NewTimerAlarm | src/com/jtheory/jdring/TimerAlarm.java:41-51 | the delay is stored clamped; the entry repeats exactly for a positive period; the first time uses the delay as given |
| TimerAlarms.NextAlarm | src/com/jtheory/jdring/TimerAlarm.java:53-66 | -1 when not repeating, else one wrapped period after the later of alarm time and clock |
| TimerAlarms.NextAlarmAdvances | src/com/jtheory/jdring/TimerAlarm.java:53-66 | without overflow the next alarm is at least a minute after both the alarm and the clock, and one period after a pending alarm |
| TimerAlarms.NextAlarmOverflows | src/com/jtheory/jdring/TimerAlarm.java:53-66 | a 40000-minute period wraps and puts the next alarm before the clock |
| Alarms.TimerNextAdvances | src/com/jtheory/jdring/TimerAlarm.java:53-66 | a timer with a positive period repeats and its next alarm lies after the alarm and the clock |
| DailyAlarms.CheckWindow | src/com/jtheory/jdring/DailyAlarm.java:57-58 | InvalidParameter exactly when start comes after end |
| Alarms.NewDailyAlarm | src/com/jtheory/jdring/DailyAlarm.java:48-60 | an invalid window is refused; else the entry repeats exactly for a positive period and takes its first next alarm |
| DailyAlarms.AtTimeFields | src/com/jtheory/jdring/DailyAlarm.java:81-84 | setting the four time fields keeps the day and gives exactly that time of day |
| DailyAlarms.StartSearchPeriodic | src/com/jtheory/jdring/DailyAlarm.java:96-98 | if 1440 steps all stay before start, every step does |
| DailyAlarms.StartSearchFindsFirst | src/com/jtheory/jdring/DailyAlarm.java:96-98 | the search finds the first step not before start, and gives up exactly when the loop would never exit |
| DailyAlarms.StepToStart | src/com/jtheory/jdring/DailyAlarm.java:96-98 | the "add period while before start" loop computes the search |
| DailyAlarms.ClampInWindow | src/com/jtheory/jdring/DailyAlarm.java:102-108 | the end check never moves back and leaves the time of day within [start, end] |
| DailyAlarms.DailyNextFails | src/com/jtheory/jdring/DailyAlarm.java:72-112 | a repeating daily alarm fails only where the start loop would never exit |
| DailyAlarms.DailyNextInWindow | src/com/jtheory/jdring/DailyAlarm.java:72-112 | the next alarm is not before the clock (seconds set to 2), after a pending alarm, and within [start, end] |
| DailyAlarms.NextAlarm | src/com/jtheory/jdring/DailyAlarm.java:72-112 | nextAlarm computes DailyNext |
| DailyAlarms.UpdatedAlarmTime | src/com/jtheory/jdring/WeeklyAlarm.java:82-84 | an embedded daily alarm that does not repeat keeps the time it was given |
| DailyAlarms.UpdatedAlarmTimeInWindow | src/com/jtheory/jdring/WeeklyAlarm.java:82-84 | a repeating embedded daily alarm moves to a positive instant within its window, after a pending alarm |
| WeeklyAlarms.StoredDays | src/com/jtheory/jdring/WeeklyAlarm.java:46-51 | the kept days are non-empty, ascending, at most 7, and the wildcard or exactly the given days up to 7 |
| Alarms.EmbeddedDaily | src/com/jtheory/jdring/WeeklyAlarm.java:53 | the embedded daily alarm's construction fails exactly as DailyAlarm's does |
| Alarms.NewWeeklyAlarm | src/com/jtheory/jdring/WeeklyAlarm.java:38-55 | the stored days are normalized; the entry always repeats and takes its first next alarm |
| WeeklyAlarms.DaySearchLands | src/com/jtheory/jdring/WeeklyAlarm.java:102-114 | a day search that ends is on an accepted weekday at the same time of day |
| WeeklyAlarms.DaySearchFindsFirst | src/com/jtheory/jdring/WeeklyAlarm.java:102-114 | on a sorted 1..7 list the search ends on the first accepted weekday within six days |
| WeeklyAlarms.UpdateDayOfWeek | src/com/jtheory/jdring/WeeklyAlarm.java:102-114 | the day loop computes the day search |
| WeeklyAlarms.MoveLandsOnListedDay | src/com/jtheory/jdring/WeeklyAlarm.java:89-97 | the move always ends on an accepted weekday |
| WeeklyAlarms.MoveFindsFirstListedDay | src/com/jtheory/jdring/WeeklyAlarm.java:89-97 | an accepted day stays; otherwise the result is start time on the first accepted weekday after it, within a week |
| WeeklyAlarms.NextAlarm | src/com/jtheory/jdring/WeeklyAlarm.java:76-100 | nextAlarm computes WeeklyNext |
| WeeklyAlarms.WeeklyNextOnListedDay | src/com/jtheory/jdring/WeeklyAlarm.java:76-100 | every next alarm is on an accepted weekday |
| WeeklyAlarms.WeeklyNextFirstListedDay | src/com/jtheory/jdring/WeeklyAlarm.java:76-100 | only the daily alarm can fail; otherwise the result is its time moved to the first accepted weekday |
| MonthlyAlarms.StoredDays | src/com/jtheory/jdring/MonthlyAlarm.java:47-52 | the kept days are non-empty, ascending, at most 32, and the wildcard or exactly the given days up to 32 |
| Alarms.NewMonthlyAlarm | src/com/jtheory/jdring/MonthlyAlarm.java:39-56 | the stored days are normalized; the entry always repeats and takes its first next alarm |
| MonthlyAlarms.DaySearchLands | src/com/jtheory/jdring/MonthlyAlarm.java:103-124 | a day search that ends is on a day isIn accepts for its month, at the same time of day |
| MonthlyAlarms.DaySearchWithinMonth | src/com/jtheory/jdring/MonthlyAlarm.java:103-124 | with a listed day still ahead in the month, the search stays in the month and stops at the first listed day |
| MonthlyAlarms.SearchFromListedDay | src/com/jtheory/jdring/MonthlyAlarm.java:103-124 | from a listed day the search does not move |
| MonthlyAlarms.MoveWithinMonth | src/com/jtheory/jdring/MonthlyAlarm.java:103-124 | a move that stays in the month and reaches a listed day ends the search there |
| MonthlyAlarms.DaySearchStopsOn | src/com/jtheory/jdring/MonthlyAlarm.java:103-124 | the search stops at once on a listed day |
| MonthlyAlarms.DaySearchStep | src/com/jtheory/jdring/MonthlyAlarm.java:103-124 | one loop round moves forward by the offset and goes on |
| MonthlyAlarms.NoLastDayUnchanged | src/com/jtheory/jdring/MonthlyAlarm.java:103-124 | without 32 the month's list is the list itself |
| MonthlyAlarms.FirstListedDay | src/com/jtheory/jdring/MonthlyAlarm.java:114 | the offset from a day reaches the first listed day on or after it |
| MonthlyAlarms.FirstListedOffset | src/com/jtheory/jdring/MonthlyAlarm.java:114 | the offset from an unlisted day is positive and skips no listed day |
| MonthlyAlarms.MoveDay | src/com/jtheory/jdring/MonthlyAlarm.java:114-115 | the offset and add(DAY_OF_MONTH) compute one move |
| MonthlyAlarms.RefreshDays | src/com/jtheory/jdring/MonthlyAlarm.java:118-122 | the month's list matches the new month length afterwards |
| MonthlyAlarms.UpdateDayOfMonth | src/com/jtheory/jdring/MonthlyAlarm.java:103-124 | the day loop computes the day search |
| MonthlyAlarms.ThirtyFirstInShortMonth | src/com/jtheory/jdring/MonthlyAlarm.java:114 | as written, {31} in a shorter month ends in an index-out-of-bounds fault |
| MonthlyAlarms.LastDaySkipped | src/com/jtheory/jdring/MonthlyAlarm.java:109-123 | as written, "15,30,L" in a 28-day February after the 15th skips the 28th, which isIn accepts, for 15 March |
| MonthlyAlarms.MoveLandsOnListedDay | src/com/jtheory/jdring/MonthlyAlarm.java:89-99 | the move always ends on a day isIn accepts |
| MonthlyAlarms.NextAlarm | src/com/jtheory/jdring/MonthlyAlarm.java:76-102 | nextAlarm computes MonthlyNext |
| MonthlyAlarms.MonthlyNextOnListedDay | src/com/jtheory/jdring/MonthlyAlarm.java:76-102 | every next alarm is on a day isIn accepts for its month |
| Alarms.NewCronAlarm | src/com/jtheory/jdring/CronAlarm.java:115-127 | the five lists are copied; construction fails exactly when the first nextAlarm does; the entry always repeats |
| Alarms.NewCronAlarmFromPattern | src/com/jtheory/jdring/CronAlarm.java:38-41 | an unparsable pattern is InvalidParameter; otherwise the entry holds the parsed fields |
| CronAlarms.Restricted | src/com/jtheory/jdring/CronAlarm.java:179 | the field[0] != -1 test faults on a null or empty field, else tells whether the field is restricted |
| CronAlarms.MonthStepForward | src/com/jtheory/jdring/CronAlarm.java:233-238 | the month step keeps the time of day, lands on a first day or stays, and never moves back |
| CronAlarms.RoundSearchLands | src/com/jtheory/jdring/CronAlarm.java:231 | a fixed-point search that ends satisfies its exit test |
| CronAlarms.RoundSearchKeeps | src/com/jtheory/jdring/CronAlarm.java:231 | what every round keeps, the whole search keeps |
| CronAlarms.RoundSearchForward | src/com/jtheory/jdring/CronAlarm.java:231 | rounds that never move back give a search that never moves back |
| CronAlarms.MonthDaySearchRound | src/com/jtheory/jdring/CronAlarm.java:231-259 | past a rejected instant the search fails at the bound, fails with a failing round, or goes on from the round's result |
| CronAlarms.MonthDaySearchStops | src/com/jtheory/jdring/CronAlarm.java:231 | the search stops at an accepted instant |
| CronAlarms.MonthDayAcceptedMeans | src/com/jtheory/jdring/CronAlarm.java:231 | the exit test is: month accepted and day listed, or last day with 32 listed |
| CronAlarms.SubstitutedHasNoLastDay | src/com/jtheory/jdring/CronAlarm.java:227 | the substituted list holds no 32 |
| CronAlarms.SubstitutedLowerBounded | src/com/jtheory/jdring/CronAlarm.java:227 | substitution keeps every value a day of the month |
| CronAlarms.MonthDaySearchLands | src/com/jtheory/jdring/CronAlarm.java:222-260 | updateDayOfMonthAndMonth exits only on an accepted month and an accepted day (32 being the last day) |
| CronAlarms.MonthDayRoundKeepsTime | src/com/jtheory/jdring/CronAlarm.java:232-258 | a round keeps the time of day |
| CronAlarms.MonthDaySearchKeepsTime | src/com/jtheory/jdring/CronAlarm.java:222-260 | the search keeps the time of day |
| CronAlarms.MonthDayRoundForward | src/com/jtheory/jdring/CronAlarm.java:232-258 | on lists without values below range, a round never moves back |
| CronAlarms.MonthDaySearchForward | src/com/jtheory/jdring/CronAlarm.java:222-260 | the search never moves back |
| CronAlarms.DayOfMonthRound | src/com/jtheory/jdring/CronAlarm.java:232-258 | the loop body advances the search and refreshes the cached month, day, month length and list |
| CronAlarms.UpdateDayOfMonthAndMonth | src/com/jtheory/jdring/CronAlarm.java:222-260 | the loop computes the month-and-day search |
| CronAlarms.MonthWeekdaySearchRound | src/com/jtheory/jdring/CronAlarm.java:268-285 | past a rejected instant the search fails at the bound, fails with a failing round, or goes on |
| CronAlarms.MonthWeekdaySearchStops | src/com/jtheory/jdring/CronAlarm.java:268 | the search stops at an accepted instant |
| CronAlarms.MonthWeekdaySearchLands | src/com/jtheory/jdring/CronAlarm.java:262-286 | updateDayOfWeekAndMonth exits only on an accepted month and weekday |
| CronAlarms.MonthWeekdayRoundKeepsTime | src/com/jtheory/jdring/CronAlarm.java:269-284 | a round keeps the time of day |
| CronAlarms.MonthWeekdaySearchKeepsTime | src/com/jtheory/jdring/CronAlarm.java:262-286 | the search keeps the time of day |
| CronAlarms.MonthWeekdayRoundForward | src/com/jtheory/jdring/CronAlarm.java:269-284 | a round never moves back |
| CronAlarms.MonthWeekdaySearchForward | src/com/jtheory/jdring/CronAlarm.java:262-286 | the search never moves back |
| CronAlarms.DayOfWeekRound | src/com/jtheory/jdring/CronAlarm.java:269-284 | the loop body advances the search and refreshes the cached month and weekday |
| CronAlarms.UpdateDayOfWeekAndMonth | src/com/jtheory/jdring/CronAlarm.java:262-286 | the loop computes the month-and-weekday search |
| CronAlarms.SearchStartBounds | src/com/jtheory/jdring/CronAlarm.java:136-146 | the search starts on a whole minute, not before the clock (seconds set to 2), and after a pending alarm |
| CronAlarms.FieldStepLands | src/com/jtheory/jdring/CronAlarm.java:162-170 | on an in-range field the offset exists exactly for a non-empty field, is non-negative, and reaches an accepted value |
| CronAlarms.TimeStepLands | src/com/jtheory/jdring/CronAlarm.java:156-171 | the minute and hour steps fail only on an empty field, never move back, and land on an accepted minute and hour |
| CronAlarms.TimeStepOnGrid | src/com/jtheory/jdring/CronAlarm.java:156-171 | the steps keep a whole minute |
| CronAlarms.TimeStepForward | src/com/jtheory/jdring/CronAlarm.java:156-171 | the steps never move back |
| CronAlarms.DayStepFaults | src/com/jtheory/jdring/CronAlarm.java:179-205 | a null day field is a null-pointer fault and an empty one an index fault, days of month read first |
| CronAlarms.DayStepLands | src/com/jtheory/jdring/CronAlarm.java:179-211 | neither field restricted: unchanged; one restricted: month and that field accepted; both: month and at least one day field accepted |
| CronAlarms.DayStepEarlier | src/com/jtheory/jdring/CronAlarm.java:179-198 | with both restricted the result is the earlier search result, the weekday one on a tie |
| CronAlarms.DayStepCandidates | src/com/jtheory/jdring/CronAlarm.java:179-211 | the day step stays or takes one of the two searches |
| CronAlarms.DayStepKeepsTime | src/com/jtheory/jdring/CronAlarm.java:179-211 | the day step keeps the time of day |
| CronAlarms.DayStepForward | src/com/jtheory/jdring/CronAlarm.java:179-211 | the day step never moves back |
| CronAlarms.NextAlarm | src/com/jtheory/jdring/CronAlarm.java:132-216 | nextAlarm computes CronNext |
| CronAlarms.CronNextOnWholeMinute | src/com/jtheory/jdring/CronAlarm.java:132-216 | every next alarm has zero seconds and milliseconds |
| CronAlarms.CronNextTimeAccepted | src/com/jtheory/jdring/CronAlarm.java:132-216 | on in-range fields it fails only on an empty minute or hour field or in the day step, and lands on an accepted minute and hour |
| CronAlarms.CronNextForward | src/com/jtheory/jdring/CronAlarm.java:132-216 | the next alarm is not before the clock (seconds set to 2) and after a pending alarm |
| CronAlarms.UnsortedMinutesOvershoot | src/com/jtheory/jdring/CronAlarm.java:162 | as written, minutes {5, 3} at minute 4 wrap to 5 of the next hour, where {3, 5} gives the next minute |
| CronAlarms.GetCronString | src/com/jtheory/jdring/CronAlarm.java:307-319 | getCronString joins the five arrToString texts with single spaces |
| CronAlarms.SingleValuedText | src/com/jtheory/jdring/CronAlarm.java:307-319 | a one-value field prints as one numeral that parses back |
| CronAlarms.CronStringRoundTrip | src/com/jtheory/jdring/CronAlarm.java:307-319 | with one value per field the cron string splits into five tokens that parse back to the values |
| CronAlarms.PairText | src/com/jtheory/jdring/AlarmUtils.java:157-170 | arrToString of a two-value array is the two numerals with ", " between them |
| CronAlarms.CronStringListSplits | src/com/jtheory/jdring/CronAlarm.java:307-319 | a two-value minute field gives six tokens instead of five, since arrToString puts ", " between values |
| AlarmManagers.AddedToInOrder | src/com/jtheory/jdring/AlarmManager.java:410 | TreeSet.add keeps the queue ordered and adds the entry unless an equal key is present |
| AlarmManagers.AddedToFirst | src/com/jtheory/jdring/AlarmManager.java:410-411 | after add the first element is the new entry exactly when it orders before the old first |
| AlarmManagers.AddedToStaysAfter | src/com/jtheory/jdring/AlarmManager.java:410 | an entry before all elements and the new one is before all of the result |
| AlarmManagers.RemovedInOrder | src/com/jtheory/jdring/AlarmManager.java:430 | TreeSet.remove keeps the order and takes out exactly the element with that key |
| AlarmManagers.RemovedStaysAfter | src/com/jtheory/jdring/AlarmManager.java:430 | removal keeps an entry before all elements before all that remain |
| AlarmManagers.RemovedFirst | src/com/jtheory/jdring/AlarmManager.java:498-499 | removing the first element's key leaves the rest |
| AlarmManagers.AlarmManager.QueueAdd | src/com/jtheory/jdring/AlarmManager.java:410 | the queue becomes the ordered addition, the waiter is untouched |
| AlarmManagers.AlarmManager.QueueRemove | src/com/jtheory/jdring/AlarmManager.java:430 | the queue becomes the ordered removal, and the answer is whether the key was there |
| AlarmManagers.AlarmManager.QueueRemoveFirst | src/com/jtheory/jdring/AlarmManager.java:498-499 | the first entry leaves and the rest stays ordered |
| AlarmManagers.AlarmManager.CallWaiter | src/com/jtheory/jdring/AlarmManager.java:413 | a waiter call is logged and the queue is untouched |
| AlarmManagers.AlarmManager.constructor | src/com/jtheory/jdring/AlarmManager.java:194-197 | a new manager has an empty queue and a waiter not yet called |
| AlarmManagers.AlarmManager.AddAlarm | src/com/jtheory/jdring/AlarmManager.java:406-415 | an entry not more than 1000 ms ahead is refused with PastDate and changes nothing; otherwise it is added, and when the first element equals it the waiter is updated, or a null-pointer fault is raised once the waiter is stopped |
| AlarmManagers.AlarmManager.RemoveAlarm | src/com/jtheory/jdring/AlarmManager.java:424-439 | false on an empty queue; else the key is removed and the answer is whether it was there; when the first was removed and some remain the waiter is updated with the new first time, or a null-pointer fault is raised once the waiter is stopped |
| AlarmManagers.AlarmManager.RemoveAllAlarms | src/com/jtheory/jdring/AlarmManager.java:444-446 | the queue is emptied and the waiter left alone |
| AlarmManagers.AlarmManager.RemoveAllAlarmsAndStop | src/com/jtheory/jdring/AlarmManager.java:451-459 | the waiter is stopped and dropped and the queue emptied; a second call is a null-pointer fault that changes nothing; afterwards isStopped holds |
| AlarmManagers.AlarmManager.ContainsAlarm | src/com/jtheory/jdring/AlarmManager.java:467-469 | containsAlarm answers TreeSet.contains: whether an element has the entry's key |
| AlarmManagers.AlarmManager.GetAllAlarms | src/com/jtheory/jdring/AlarmManager.java:474-483 | the list is the queue's elements in ascending compareTo order, and the queue is unchanged |
| AlarmManagers.AlarmManager.RingFirst | src/com/jtheory/jdring/AlarmManager.java:493-521 | nothing on an empty queue; else the first entry leaves, is rung, and comes back exactly when updateAlarmTime answers true |
| AlarmManagers.AlarmManager.RingNextAlarm | src/com/jtheory/jdring/AlarmManager.java:489-536 | on snapshots of the manager before and after (Ringing): the rounds form a run from the old queue to the new one, one clock reading each, every queue in compareTo order on the keys of its moment; each round rings and removes the first entry; exactly when updateAlarmTime answers true the entry takes alarm time nextAlarm and last update time the reading and TreeSet.add puts it back on the keys of that moment (AddedBy), which pins every queue of the run; otherwise it keeps its key and stays out; each round starts from the key its entry had then, and every entry ends with the key its last round left; a next round comes exactly when the new first alarm is less than 1000 ms after the reading; the end is nothing on an empty queue, the exception of the last round, Diverges when readings run out, a null-pointer fault once the waiter is gone, or a normal end that restarts the waiter with the new first alarm time |
| AlarmManagers.AlarmManager.RingRound | src/com/jtheory/jdring/AlarmManager.java:498-521 | one round seen on snapshots: the first entry is rung from its current key; the new queue is the rest with the entry put back by TreeSet.add on the new keys exactly when updateAlarmTime answers true, and both queues are in compareTo order; the keys and waiter change as one round says, the exception exactly when nextAlarm fails for a repeating entry |
| AlarmManagers.AddedToIsAddedBy | src/com/jtheory/jdring/AlarmManager.java:520-521 | TreeSet.add on a key map that holds the entries' own keys is TreeSet.add on the entries |
| AlarmManagers.AddedByKeeps | src/com/jtheory/jdring/AlarmManager.java:520-521 | TreeSet.add keeps every element, adds no entry but the new one, and adds it whenever no element has its key |
| AlarmManagers.RoundPutsBack | src/com/jtheory/jdring/AlarmManager.java:519-521 | a round whose entry rings again puts it back in the queue when no other entry has its new key |
| AlarmManagers.RunRequeues | src/com/jtheory/jdring/AlarmManager.java:498-531 | an entry a round put back, with no other entry on its new key, is queued after the run with that key unless a later round rang it |
| AlarmManagers.RingingRequeues | src/com/jtheory/jdring/AlarmManager.java:489-536 | after ringNextAlarm, an entry a round rang again is still queued with the key that round gave it, unless a later round rang it or another entry had that key |
| AlarmManagers.RunKeeps | src/com/jtheory/jdring/AlarmManager.java:498-521 | an entry queued when a round began, that neither it nor a later round rang, is still queued after the run |
| AlarmManagers.AdvancedUnrung | src/com/jtheory/jdring/AlarmManager.java:498-521 | an entry that no round from a given one on rang keeps the key it had when that round began: alarm time, last update time and name |
| AlarmManagers.RingingNone | src/com/jtheory/jdring/AlarmManager.java:493-495 | on an empty queue nothing is rung, nothing changes and the answer is normal |
| AlarmManagers.RingingOne | src/com/jtheory/jdring/AlarmManager.java:498-535 | one round followed by an end: the exception, an empty queue, no reading left, a missing waiter, or a restart of the waiter with the new first alarm time |
| AlarmManagers.RingingCons | src/com/jtheory/jdring/AlarmManager.java:524-531 | a round whose new first alarm is under 1000 ms ahead, followed by a whole ringNextAlarm, is a whole ringNextAlarm |
| AlarmManagers.RingingKeeps | src/com/jtheory/jdring/AlarmManager.java:489-536 | after ringNextAlarm every entry it did not ring is still queued with its key unchanged |
| AlarmManagers.HasKey | src/com/jtheory/jdring/AlarmManager.java:467-469 | the definition of TreeSet.contains on the queue: some element compares equal; ContainsAlarm is proved to answer exactly it |
| AlarmManagers.AddedTo | src/com/jtheory/jdring/AlarmManager.java:410 | the definition of TreeSet.add on the ordered queue; AddedToInOrder, AddedToFirst and AddedToIsAddedBy prove what it keeps and where the entry goes |
| AlarmManagers.Removed | src/com/jtheory/jdring/AlarmManager.java:430 | the definition of TreeSet.remove on the ordered queue; RemovedInOrder proves it takes out exactly the element with that key |
| AlarmManagers.AlarmManager.IsStopped | src/com/jtheory/jdring/AlarmManager.java:457-459 | isStopped: whether the waiter is gone; the constructor proves it false and RemoveAllAlarmsAndStop proves it true afterwards |

## Left out

- Threads: `AlarmWaiter`, `RunnableRinger`, `RingExecutor`, `synchronized`, `finalize` and `ringAlarm`'s listener call. Concurrency cannot be expressed here. An entry that is rung appears in the list `RingNextAlarm` returns, and waiter calls are a ghost log.
- `Logger`, `Test`, `hashCode`, serialization, exception messages, and the `Date`-based `toString` of the alarm classes are not modelled. They print or format text, or run a demonstration.
- The String-based constructor overloads and the `AlarmManager.add*Alarm` convenience methods are not modelled. They parse their arguments and call a modelled constructor and `addAlarm`.
- `java.util.Calendar` is UTC only, with no time zones or daylight saving time. `getActualMaximum` is the length of the instant's month.
- UUIDs: `UUID.randomUUID()` is not modelled. A UUID is given as its place in UUID order and its text.
- Null arrays are modelled only where the source tests the array or indexes it (the cron fields, `arrToString`, `tabToString`). Elsewhere arrays are never null.
- Aliasing of the caller's arrays is not modelled. `Arrays.sort` in the weekly and monthly constructors sorts the caller's array in place; the model sorts a copy.
- `Alarms.AlarmEntry.constructor`: the nextAlarm of an entry is a function value bound by the constructor to its kind's computation. It is not a virtual method.
- `AlarmManagers.AlarmManager.RingNextAlarm`: the clock is read once per round instead of twice, from the list `clock`. Running out of readings reports `Diverges` where the source would go on ringing. Its ghost parameter `entries` names the objects the method may modify and whose keys the snapshots record.
- `JavaLang.EqualsIgnoreCase` has the case mappings only of the ASCII letters and of the four characters that Java maps onto one: the long s, the dotless i, the capital I with dot above and the Kelvin sign. Other non-ASCII case pairs (é and É) do not match. Every comparison in the model is against an ASCII alias or "L", and there it is exact.
- Clock readings: the source reads the clock afresh at each use. `setAlarmTime` stamps `lastUpdateTime` with a new reading (AlarmEntry.java:170), the past-date check reads it again (AlarmEntry.java:42), and the timer, daily, monthly and cron computations start from their own reading (TimerAlarm.java:50, DailyAlarm.java:76, MonthlyAlarm.java:85, CronAlarm.java:134). The model takes one reading `now` per operation and uses it everywhere, so the milliseconds that pass between readings are not modelled.
- `JavaLang.ParseInt` accepts the ASCII digits 0-9 only. `Integer.parseInt` also accepts the decimal digits of other scripts, which the model refuses.
- `SchedulingPatterns`: the class comment of SchedulingPattern.java:34-38 documents months 1-12 and days of the week 0 (Sunday) to 6. The code parses months 0-11 and days of the week 1-7, and the model follows the code.
- `AlarmManagers.AlarmManager.RingFirst`: whether the entry rings in a dedicated thread, through the executor, or inline is not distinguished.
- `DailyAlarms.StepToStart`: the "not before start" loop is cut at 1440 steps. `DailyAlarms.StartSearchFindsFirst` proves that it fails exactly when the source loop would never end.
- `WeeklyAlarms.UpdateDayOfWeek` reports `Diverges` after seven moves. On a sorted list of days 1..7 it never gets there (`WeeklyAlarms.DaySearchFindsFirst`). On other lists the source might still end later.
- `MonthlyAlarms.UpdateDayOfMonth` reports `Diverges` after 366 moves.
- `CronAlarms.UpdateDayOfMonthAndMonth` and `CronAlarms.UpdateDayOfWeekAndMonth` report `Diverges` after 1000 rounds.
- `CronAlarms.CronNextForward` and `CronAlarms.DayStepForward` are proved for fields without values below their range. The forward step of a field with values below its range, which the parser never produces, is not stated.
- `CronAlarms.DayStepLands`: when neither day field is restricted the month field is not consulted, as written. So a pattern with a restricted month and wildcard days may ring in any month.
- `CronAlarms.TimeStepLands`: the hour step does not reset the minute, as written. `* 12 * * *` at 10:30 gives 12:31.
- `Alarms.EqualsDisagreesWithCompare`: `equals` is modelled as written. Distinct objects are equal only when their UUIDs DIFFER, so `equals` never agrees with `compareTo`. `AddAlarm` and `RemoveAlarm` use it exactly where the source does.
- `MonthlyAlarms.ThirtyFirstInShortMonth` and `MonthlyAlarms.LastDaySkipped` record behaviour of the code as written: an index fault for day 31 in a short month, and a skipped last day. The model keeps that behaviour rather than correcting it.
- `SchedulingPatterns.PrintedWildcardReadsAsOne`: the text `CronParameter.toString` prints for a wildcard does not read back as a wildcard. The round trip is proved only for explicit value lists (`SchedulingPatterns.PatternTextRoundTrip`).
