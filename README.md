# Opening hours: cleaning, validating, parsing and evaluating

This project models the core of `opening_hours.py`, a script that reads
OpenStreetMap-style opening-hours strings such as
`mo-fr 7:30-23:00; sa 09:00-12:00, 14:00-18:00; su off` and writes one row per
string. It covers the whole pipeline that writes a row:

1. `clean_oh_string` normalises spacing and case.
2. `validate_oh_string` checks the string's words against a whitelist.
3. `parse_oh_string` reads the `;`-segments into rules. It uses:
   - `get_days_open` and `search_regex_pattern` to read the days;
   - `get_time_open` to read the time ranges;
   - `remove_day` to let later segments override earlier ones.
4. `check_if_open` evaluates the rules at a query day and time.

The modules follow the source's functions:

| module | file | what it models |
|---|---|---|
| `Text` | `text.dfy` | Python's `strip`, `split`, `lower` and `in` on strings |
| `Week` | `week.dfy` | the `weekdays` list and `list.index` |
| `Cleaning` | `cleaning.dfy` | `clean_oh_string` |
| `Validation` | `validation.dfy` | `validate_oh_string` |
| `Times` | `times.dfy` | `get_time_open` and the `%H:%M` clock |
| `Days` | `days.dfy` | `search_regex_pattern` and `get_days_open` |
| `Parsing` | `parsing.dfy` | `remove_day` and `parse_oh_string` |
| `Reference` | `reference.dfy` | a closed-form statement of what `parse_oh_string` returns, with the proof that the loop computes it |
| `Evaluation` | `evaluation.dfy` | `check_if_open` |
| `Rows` | `rows.dfy` | the body of the main loop, for one string |

**Times.** A `datetime` of the source is the number of minutes since midnight
on 1900-01-01:
- `timedelta(days=1)` is 1440 minutes;
- `24:00` is read as 1440;
- a range that ends before it starts has 1440 added to its end.

**Schedule.** The list that `parse_oh_string` builds and `remove_day` mutates in
place is the class `Parsing.Schedule`. Its field `rules` is a sequence of `Rule`
values, and its methods update that field.

**Errors.** A `ValueError` that escapes is modelled as a value:
- `weekdays.index` on a code such as `ph` gives `NotAWeekday` in `Days` and
  `Raised` in `ParseOutcome`;
- `strptime` on a bad query time makes `CheckIfOpen` return `None`;
- either of these makes the row `Aborted`.

`ValueError`s that the source catches, in `get_time_open`, skip the range as
the source does.

**Details of the code that the model keeps:**
- An empty `;`-segment, such as the one after a trailing `;`, fails the whole
  parse with the "not OK" message. (see `EmptySegmentFails` and
  `TrailingSemicolonFails`).
- A rule whose days have all been removed stays in the list with no days; it is
  not pruned.
- Cleaning collapses runs of the space character only (`' +'`), not other
  whitespace. The trimming at both ends and the squeezing around `-` and `:` do
  use Python's whitespace.
- An interval may start and end at the same minute.
- An interval is open when `start <= t <= end`.
- A range that wraps past midnight ends above 1440, so no query time, which is
  always on the first day, reaches its part after midnight
  (`OvernightEndsAtMidnight`).

## Model

| member | source | states |
|---|---|---|
| Cleaning.CleanOhString | opening_hours.py:278-294 | every step deletes characters or lowercases them, so the cleaned string is never longer than the input |
| Cleaning.CleanKeepsText | opening_hours.py:278-294 | cleaning only deletes whitespace and lowercases: the non-space characters of the result are the lowercased non-space characters of the input, in order |
| Cleaning.SquashSpacesKeepsText | opening_hours.py:285 | collapsing runs of spaces deletes spaces only |
| Cleaning.DropSpaceBeforeKeepsText | opening_hours.py:287-288 | dropping the space before `,` or `;` deletes spaces only |
| Cleaning.SquashAroundKeepsText | opening_hours.py:289-290 | removing whitespace around `-` or `:` deletes whitespace only |
| Cleaning.CleanIsNormal | opening_hours.py:278-294 | the cleaned string has no whitespace at either end, no two spaces in a row, no space before `,` or `;`, no whitespace beside `-` or `:`, and no upper-case ASCII letter |
| Cleaning.CleanIdempotent | opening_hours.py:278-294 | cleaning a cleaned string gives it back unchanged |
| Cleaning.NormalIsClean | opening_hours.py:278-294 | every string in that normal form is its own cleaning, so the normal form is exactly the set of cleaned strings |
| Cleaning.SquashSpacesNoDouble | opening_hours.py:285 | after the collapse no two spaces are adjacent |
| Cleaning.DropSpaceBeforeEstablishes | opening_hours.py:287-288 | after the substitution no space stands before the given punctuation mark |
| Cleaning.SquashAroundEstablishes | opening_hours.py:289-290 | after the substitution no whitespace stands on either side of `-` or `:` |
| Cleaning.SquashAroundPreserves | opening_hours.py:289-290 | the substitution around `-` or `:` keeps every property that an earlier step established |
| Cleaning.SquashSpacesIdentity | opening_hours.py:285 | a string without two adjacent spaces is left as it is |
| Validation.ValidateOhString | opening_hours.py:253-275 | the loop says valid exactly when every word of the split at `[\s,:;-]` is a weekday code, `ph`, `off`, `24/7`, a space, empty, or one or two digits |
| Validation.ValidAtSeparator | opening_hours.py:263-275 | two pieces joined at a separator are valid exactly when both pieces are valid |
| Validation.ValidSingleWord | opening_hours.py:267-273 | text without a separator is valid exactly when it is a whitelisted word |
| Validation.InvalidWordRejects | opening_hours.py:267-273 | one word outside the whitelist anywhere between separators rejects the whole string |
| Validation.LongNumberRejects | opening_hours.py:270 | a number of three or more digits is rejected |
| Validation.GermanHoursRejected | opening_hours.py:253-275 | `mo-fr 9uhr-17uhr` is rejected |
| Validation.ValidAlphabet | opening_hours.py:259-270 | a valid string is made only of separators, digits, `/` and the letters of the whitelisted words |
| Week.FirstIndex | opening_hours.py:147-148 | `list.index` gives the first position of the element, and fails exactly when the element is absent |
| Week.WeekdayIndexOf | opening_hours.py:22 | each weekday code is found at its own position in `weekdays` |
| Times.ParseClock | opening_hours.py:95 | a clock that `%H:%M` accepts is a time of day, below 1440 minutes |
| Times.ClockLanguage | opening_hours.py:95 | `%H:%M` accepts a text exactly when it is an hour of one or two digits up to 23, a colon and a minute of one or two digits up to 59, and reads it as 60 times the hour plus the minute |
| Times.UnpaddedClock | opening_hours.py:95 | a one-digit hour, a colon and any valid minute read as that clock, with no padding |
| Times.UnpaddedClocks | opening_hours.py:95 | `7:30` reads as 450 minutes and `9:5` as 545 |
| Times.FormatClock | opening_hours.py:95 | the zero-padded `HH:MM` text: five characters, digits around a colon, hours led by 0-2 and minutes by 0-5 |
| Times.ClockRoundTrip | opening_hours.py:95 | every time of day reads back from its `HH:MM` text through the `%H:%M` parser |
| Times.ClockRejectsHour24 | opening_hours.py:96-100 | `24:00` is not a clock time, which is why the end marker is handled apart |
| Times.ParseRange | opening_hours.py:91-106 | a range that parses opens on the first day and closes no earlier than it opens and at most one day later |
| Times.ParseEnds | opening_hours.py:93-106 | a start and end that parse give a well-formed interval: it opens on the first day and closes no earlier and at most one day later |
| Times.RangeRoundTrip | opening_hours.py:93-106 | `HH:MM-HH:MM` reads back as the interval it names, moved past midnight when it ends before it starts |
| Times.RangeToMidnight | opening_hours.py:98-100 | `HH:MM-24:00` closes at minute 1440 |
| Times.RangeNeedsOneDash | opening_hours.py:93 | a piece with no dash, or with more than one, is skipped |
| Times.KeepSomeFrom | opening_hours.py:89-106 | every interval that is kept comes from one of the pieces |
| Times.KeepParsedAppend | opening_hours.py:89-106 | the kept intervals of a concatenation of pieces are those of each part, in order |
| Times.KeepParsedAll | opening_hours.py:89-106 | when every piece parses, every one is kept, in order |
| Times.TimeOpen | opening_hours.py:67-110 | at most one interval per comma piece, each one well formed |
| Times.StrayCharacterRejects | opening_hours.py:79-83 | one character other than a digit, `,`, `:`, `-` or a space rejects every range, even well-formed ones |
| Times.EmptyHasNoInterval | opening_hours.py:86-110 | an empty time text gives no interval |
| Times.RangeTimeOpen | opening_hours.py:86-106 | a single range reads back as its one interval |
| Times.TwoRangesRoundTrip | opening_hours.py:86-106 | two ranges separated by `, ` both read back, in order |
| Times.GetTimeOpen | opening_hours.py:67-110 | the character scan and the loop over the pieces compute the intervals that `TimeOpen` describes |
| Times.ReadRanges | opening_hours.py:89-110 | the loop appends the interval of each piece that parses, and of no other piece |
| Days.RangeMatchIsPrefix | opening_hours.py:116 | the range search returns `m` exactly when `m` is a prefix of the segment made of two letters, `-` and two letters |
| Days.RangeOfCodes | opening_hours.py:116 | a segment that starts with two codes joined by `-` matches as those five characters, and the codes and the rest are read back |
| Days.SingleDayMatchIsPrefix | opening_hours.py:119 | the single-day search returns `m` exactly when `m` is the two-letter prefix and whitespace and a digit follow it |
| Days.DayListMatchIsPrefix | opening_hours.py:123-124 | the list search returns `m` exactly when `m` is a proper prefix made of day units, without digits, and the next character is a digit |
| Days.DayListMatchFinds | opening_hours.py:123-124 | any run of day units without digits that is followed by a digit is what the list search returns |
| Days.TimeOnlyMatch | opening_hours.py:127 | a segment that matches the clock search is at least four characters long, starts with a digit and has a colon second or third |
| Days.TimeOnlyMatchIsPrefix | opening_hours.py:127-128 | the clock search matches exactly when the segment starts with an hour of one digit, or of two led by 0-2, then `:` and minutes led by 0-5 |
| Days.RangeTextTimeOnly | opening_hours.py:127 | every `HH:MM-HH:MM` text matches the clock search |
| Days.MatchersOverlap | opening_hours.py:113-131 | a range match excludes a single-day match; a single-day match is also a list match of its first three characters; a clock match excludes the three day searches |
| Days.SearchRegexPattern | opening_hours.py:113-131 | the four searches, with the same facts about how their matches overlap |
| Days.FirstDigit | opening_hours.py:123-124 | the position of the first digit, with no digit before it, or none when there is no digit |
| Days.WeekdaySlice | opening_hours.py:149 | the slice from position `i` to position `j`, empty when `j < i` |
| Days.StripAll | opening_hours.py:164 | each element stripped, in order |
| Days.GetDaysOpen | opening_hours.py:134-181 | when the days resolve, every interval read from the time text is well formed |
| Days.RangeDays | opening_hours.py:143-152 | the range branch gives only well-formed intervals |
| Days.ListDays | opening_hours.py:160-166 | the list branch gives only well-formed intervals |
| Days.DayRangeForm | opening_hours.py:143-152 | a range of two weekday codes gives the days from the first code to the last, none when the codes are reversed, and the intervals of the text after them |
| Days.RangeRaisesOnFirst | opening_hours.py:147 | a range whose first code is not a weekday raises on that code |
| Days.PublicHolidayRangeRaises | opening_hours.py:147 | `ph-mo` raises `ValueError` |
| Days.RangeRaisesExactly | opening_hours.py:143-148 | the segment raises exactly when it starts with a range that names a code outside `weekdays` |
| Days.SingleDayForm | opening_hours.py:154-158 | any two letters followed by whitespace and a digit are taken as one day, weekday or not |
| Days.DayListForm | opening_hours.py:160-166 | two or more codes separated by commas are taken one by one, in order, with the intervals that follow them |
| Days.ListTextSplits | opening_hours.py:163-164 | splitting a list of codes at its commas and stripping the pieces gives back the codes |
| Days.ListWithoutCommas | opening_hours.py:160-166 | codes separated by a space and no comma stay one element: `mo we 9:00-12:00` names the single day `mo we` |
| Days.TimeOnlyForm | opening_hours.py:168-171 | a segment that starts with a clock is open on all seven weekdays |
| Days.BareRange | opening_hours.py:168-174 | a bare range such as `09:00-17:00` is open on all seven weekdays for that interval |
| Days.NoForm | opening_hours.py:173-181 | a segment of no form gives no days and no intervals |
| Parsing.RemoveFirst | opening_hours.py:62-63 | `list.remove` shortens the list by one exactly when the day is in it |
| Parsing.RemoveFirstCount | opening_hours.py:62-63 | `list.remove` takes exactly one occurrence of the day when there is one, and nothing else |
| Parsing.RemoveFirstMissing | opening_hours.py:62 | a rule without the day is left alone |
| Parsing.RemoveFirstFound | opening_hours.py:63 | the first occurrence goes and the rest keep their order |
| Parsing.RemoveFirstAt | opening_hours.py:62-63 | the same two facts, stated through the position that `list.index` finds |
| Parsing.RemoveEach | opening_hours.py:233-234 | removing a list of days shortens a rule by at most the number of days removed |
| Parsing.RemoveEachCount | opening_hours.py:233-234 | removing a list of days takes one occurrence per day removed, and nothing else |
| Parsing.RemoveEachAppend | opening_hours.py:233-248 | removing two lists of days one after the other is removing their concatenation |
| Parsing.RemoveEachRemoves | opening_hours.py:233-234 | from days without repeats, a day survives exactly when it was not removed |
| Parsing.WithoutDayEffect | opening_hours.py:52-64 | the rules keep their number, order and intervals; each rule's days lose exactly one occurrence of the day, as a multiset, and a rule without the day is unchanged |
| Parsing.WithoutDays | opening_hours.py:233-234 | removing a list of days keeps the number of rules and every rule's intervals |
| Parsing.WithoutDaysEach | opening_hours.py:233-234 | removing a list of days from the rules removes the whole list from each rule separately |
| Parsing.Schedule.constructor | opening_hours.py:188 | the schedule starts with no rules |
| Parsing.Schedule.RemoveDay | opening_hours.py:52-64 | `remove_day` updates the rules in place to their values without the day |
| Parsing.Schedule.RemoveDays | opening_hours.py:233-234 | removing each day in turn leaves the rules without all of those days |
| Parsing.Schedule.Append | opening_hours.py:241 | the new rule is added at the end and nothing else changes |
| Parsing.OffDays | opening_hours.py:221-225 | an `off` segment names at least one (possibly empty) day |
| Parsing.OffDaysAt | opening_hours.py:223-225 | when `off` first occurs at position `k`, the days off are the comma pieces of the text before position `k - 1`, stripped |
| Parsing.OffDaysOne | opening_hours.py:221-225 | `d off` takes off exactly the day `d`, for every two-letter code `d` |
| Parsing.OffDaysTwo | opening_hours.py:221-225 | ` d0, d1 off` takes off exactly `d0` and `d1`, in order, for every two codes |
| Parsing.OffDaysBare | opening_hours.py:223 | a segment that is just `off` cuts at position -1, so the day off is `of` |
| Parsing.TurnOf | opening_hours.py:220-227 | a segment containing `off` gives days off, at least one; any other segment is read for its days and intervals, all well formed |
| Parsing.Step | opening_hours.py:220-241 | a stopped parse stays as it is; a going parse gains one rule per segment that gives one, keeps the earlier rules' intervals, never adds a rule without intervals, and a stop is never a success |
| Parsing.Run | opening_hours.py:218-241 | after the segments, a stopped parse is not a success, and a going one has at most one rule per segment, none without intervals |
| Parsing.RunStaysStopped | opening_hours.py:235-239 | once a segment has stopped the parse, the later segments change nothing |
| Parsing.ReadSegment | opening_hours.py:220-241 | one pass of the loop body updates the schedule and the days off as one step of the segment reading |
| Parsing.Parse | opening_hours.py:184-250 | a successful parse has at most one rule per `;`-segment and no rule without intervals |
| Parsing.ParseOhString | opening_hours.py:184-250 | the loop with its in-place schedule returns what the segment reading describes, including the `24/7` shortcut |
| Reference.RunMatchesExpected | opening_hours.py:218-241 | after the segments, the parse has either stopped at the first failing segment or holds the closed-form rules and the days of the last `off` segment |
| Reference.StepOff | opening_hours.py:221-225 | an `off` segment only replaces the days off |
| Reference.StepOn | opening_hours.py:226-241 | any other segment either stops the parse with its failure, or removes its days from the earlier rules and appends its rule |
| Reference.Expected | opening_hours.py:231-248 | the closed form has one rule per segment that gives rules, with that segment's intervals |
| Reference.ExpectedSnoc | opening_hours.py:231-241 | appending a rule to the closed form removes its days from the earlier rules and adds the rule |
| Reference.WithoutOffDays | opening_hours.py:246-248 | removing the days off from the closed form gives the closed form with the days off |
| Reference.ParseReference | opening_hours.py:184-250 | outside the `24/7` shortcut, a success has exactly one rule per segment that gives rules |
| Reference.ParseMatchesReference | opening_hours.py:184-250 | `parse_oh_string` returns the closed form for every string |
| Reference.ParsedRules | opening_hours.py:218-250 | on success the rules are the closed form of the segments that give rules, without the days of the last `off` segment |
| Reference.RulesFollowSegments | opening_hours.py:218-241 | on success there is one rule per segment that gives rules, in order, with that segment's intervals, none of them empty |
| Reference.ExpectedDaysComeFromNamed | opening_hours.py:231-248 | each rule of the closed form keeps only days that its own segment named |
| Reference.RuleDaysComeFromSegment | opening_hours.py:231-241 | each parsed rule keeps only days that its own segment named |
| Reference.ExpectedRemoves | opening_hours.py:231-248 | in a rule without repeated days, a day survives exactly when no later rule names it and it is not taken off |
| Reference.LaterSegmentOverrides | opening_hours.py:231-234 | a day that a later segment names is gone from an earlier rule whose segment names no day twice |
| Reference.OffDaysRemoved | opening_hours.py:243-248 | the days of the last `off` segment are gone from every rule whose segment names no day twice |
| Reference.EmptySegmentFails | opening_hours.py:235-239 | an empty segment makes the parse fail |
| Reference.OnSegmentFails | opening_hours.py:235-239 | one failing segment that gives a rule makes the parse fail |
| Reference.TrailingSemicolonFails | opening_hours.py:207 | a string ending in `;` never parses |
| Evaluation.CheckIfOpen | opening_hours.py:34-49 | the scan fails exactly when the query time is not `%H:%M`, and otherwise says open exactly when a rule naming the lowercased day has an interval holding the time, both ends included |
| Evaluation.EmptyScheduleClosed | opening_hours.py:41-49 | with no rules, every day is closed at every time |
| Evaluation.AllWeekOpen | opening_hours.py:201-205 | the `24/7` rule is open from 00:00 to 23:59 on the seven weekday codes and on no other day |
| Evaluation.OvernightEndsAtMidnight | opening_hours.py:39-47 | for any query time, the rules are open exactly when the rules cut at the end of the first day are open |
| Evaluation.OvernightMissesEarlyMorning | opening_hours.py:103-105 | a range that crosses midnight covers a query time exactly when the time is at or after its start |
| Evaluation.LastMentionDecides | opening_hours.py:231-248 | the last segment naming a day decides that day: open exactly when its intervals cover the time and the day is not taken off |
| Evaluation.OffDayClosed | opening_hours.py:243-248 | a day of the last `off` segment is closed at every time |
| Rows.Row | opening_hours.py:361-377 | every row that is written records the cleaning of the input string |
| Rows.RowOfClean | opening_hours.py:361-377 | every row that is written records the cleaned string, and a valid row with a status holds a successful parse with at least one rule |
| Rows.EvaluateRow | opening_hours.py:361-377 | the main-loop body writes the row that the pipeline of operations describes |
| Rows.RowRecordsCleanString | opening_hours.py:361-362 | the recorded string is in normal form and keeps the text of the input |
| Rows.RowOfCleanString | opening_hours.py:361 | feeding the cleaned string back in gives the same row |
| Rows.RowAllWeek | opening_hours.py:201-205 | any string that cleans to `24/7` is valid, and open at every valid time on exactly the seven weekday codes, in any case |
| Rows.AllWeekIsClean | opening_hours.py:278-294 | `24/7` is already clean |
| Rows.RowTrailingSemicolon | opening_hours.py:367-375 | a cleaned string ending in `;` never gets an open or closed status |
| Rows.RowOpen | opening_hours.py:364-373 | at a valid query time, a row says open exactly when the cleaned string is valid, parses, and its rules are open at the lowercased day and that time |
| Rows.OpenRowOfClean | opening_hours.py:364-373 | the same, stated for a string that is already cleaned |

## Left out

- Reading rows from the input CSV and writing to the output CSV are left out as I/O. The query day and time are parameters.
- `parse_arguments` is left out: the command line, the defaults taken from `datetime.now()` and the output file name.
- The logging level and the `logging.debug` calls are left out; they do not change results.
- `datetime` is reduced to minutes on one day. No other part of the date is ever used.
- There is no general regex engine. Each of the eleven regular expressions the source uses is modelled by a function for its one pattern:
  - the four searches of `search_regex_pattern` (lines 116-128) are `DayRangeMatch`, `SingleDayMatch`, `DayListMatch` and `TimeOnlyMatch`;
  - the split at `[\s,:;-]` (line 263) is `Words`;
  - the number pattern `^[0-9]?[0-9]$` (line 270) is `IsSmallNumber`;
  - the five substitutions of `clean_oh_string` (lines 285-290) are `SquashSpaces`, `DropSpaceBefore` (used twice) and `SquashAround` (used twice).
- Whitespace (`\s`, `str.isspace` and `str.strip`) is the set of characters Python counts as whitespace. `\d` and `[0-9]` are the ASCII digits, and `str.lower` maps only `A`-`Z`. Unicode digits and the case mapping of non-ASCII letters are not modelled.
- The result of `parse_oh_string` is modelled as a value, not as a mixed list. The pair `[final_oh_list, oh_string_ok]` becomes `ParseOutcome`. The "not OK" message is the case `NotOk`; its text is left out. A rule is a `Rule` value, not a list whose head is the day list.
- Parsing.Schedule: the per-rule day lists are values inside the `rules` sequence, so the model does not capture aliasing between them. The source stores `weekdays` itself only in the `24/7` rule, which it returns at once; every other day list is a fresh list or slice.
- The strings written to the output file (`valid`, `invalid`, `open`, `closed`) become the `RowOutcome` and `Status` datatypes. Their printed form is left out.
