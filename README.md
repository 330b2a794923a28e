# A verified model of the calendar app's logic

This project models, in Dafny, the date, text, list and registry logic that sits under the user interface of an Android calendar app (the `com.android.calendar` packages and the `kr_common` library). Each core source file has its own module, named after its class. Supporting modules are:

- `Wrappers` (`Option`/`Result`);
- `JavaLang`, which holds the parts of the Java library the code relies on: truncating `/` and `%`, `Integer.parseInt` and `toString`, `String.trim` and `split`, `compareTo` on strings;
- `Gregorian`, a proleptic Gregorian day count used as the reference calendar.

Contents by area:

- **Dates.**
  - `LunarCoreHelper`: the Julian-day conversions, proved inverse to each other on the hybrid Julian/Gregorian calendar.
  - `CalendarUtil` and `Calendar`: month lengths, leap years, the 42-cell month grid and the pager's page dates, plus the `Calendar` value type with its `equals`, `toString`, `compareTo` and `isSameMonth`.
- **`Time`.** A class whose fields `parse` and `normalize` update.
  - `parse` and `format2445` handle the DATE and DATE-TIME forms of sections 3.3.4 and 3.3.5 of RFC 5545, and they round-trip.
  - `normalize` carries seconds into days and months into years.
  - Also modelled: `getActualMaximum`, both `clear` methods and `isLastWeek`.
- **Recurrence (`RecurrencePicker`).** The RRULE checks of `canHandleRecurrenceRule` (the RECUR value of section 3.3.10 of RFC 5545) and the copying of the picker's model into a rule. The copying always produces a rule the check accepts. Also modelled: the min/max text watcher and the end-count clamp.
- **Reminders.**
  - `CalendarEventModel`: reminder equality and order, and `normalizeReminders` (sort, then drop adjacent repeats), plus the event's `isValid`, `isEmpty`, `clear` and colour setters.
  - `EventViewUtils`: the parallel value and label lists with sorted insertion and filtered removal, and the label unit.
- **Events.**
  - `EventManager`: the date order, `containsDate`, the per-day filter, the query ranges and event-type resolution.
  - `EventTypeManager`: the type table and its lookup.
- **Handlers (`CalendarController`).** The controller's handler registry, which defers registrations and removals while a dispatch is running, and the event delivery of `sendEvent`. Handlers served during a dispatch may themselves register and deregister handlers, and the loop re-reads the removal queue for each handler.
- **Editing and provisioning.**
  - `EditEventHelper`: the rights checks, the `saveEvent` guards, `saveReminders` and the recurrence duration. Two of its checks are predicates with the same names as in the source. `IsSameEvent` holds when there is no original, or when calendar and id both match; the lemmas below use it. `IsFirstEventInSeries` holds when the occurrence's original start is the series' start.
  - `CalendarRepository`: the local calendar and colour provisioning against a store given as a list of rows.
- **Small loops.**
  - `AgendaViewModel`: the agenda view model's setters and its one-time observer.
  - `AgendaListViewAdapter`: the scroll-to-day search.
  - `GridSpacing`: the grid spacing.
  - `YearPagerAdapter`: the per-month event counts of the year view.
- **`Utils`.**
  - North-American phone-number scanning, with the optional `tel:` prefix of RFC 3966.
  - `spanWillOverlap` and `getUpperString`.
  - `DeclinedColor`: the declined-colour blend on 32-bit integers, with Java's wrap-around and sign-copying shift.

Where the source mutates state, the model does too:

- `Time`, `CalendarEventModel`, `EventRecurrence`, the controller, the repository, the agenda view model, the grid decoration and the year pager are classes whose methods change their fields.
- The loops of the source are `while`/`for` loops. Each is proved against a specification function, and the properties are proved about that function.

Inputs taken as parameters:

- the clock and time zone: instants and midnights are given as numbers;
- the content provider: a list of rows, or a function from a query to events;
- Android resources: the colour palette.

## Model

| member | source | states |
|---|---|---|
| Time.ReadNumber4 | common_library/src/main/java/com/android/kr_common/Time.java:330-335 | the four `getChar` calls of the year equal the four-digit reading (`Number4`), failing at the first non-digit |
| Time.ReadNumber2 | common_library/src/main/java/com/android/kr_common/Time.java:337-346 | the two `getChar` calls of the month or day equal the two-digit reading, failing at the first non-digit |
| Time.Time.ParseInternal | common_library/src/main/java/com/android/kr_common/Time.java:321-390 | the fields written and the answer or error equal the parsing specification `ParseInternalSpec` of the old fields |
| Time.Time.ParseTimeOfDay | common_library/src/main/java/com/android/kr_common/Time.java:348-389 | from position 8 on: the `T` check, the six time digits, the optional `Z` and the DATE branch, as the specification `ParseRest` |
| Time.Time.ParseClockDigits | common_library/src/main/java/com/android/kr_common/Time.java:358-377 | the hour, minute and second digits at 9, 11 and 13 and the optional `Z` at 15, as the specification `ParseClock`, failing at the first bad character |
| Time.Time.FinishParse | common_library/src/main/java/com/android/kr_common/Time.java:385-389 | weekday, year day, DST flag and offset cleared, nothing else changed, and the UTC flag returned |
| Time.Time.Parse | common_library/src/main/java/com/android/kr_common/Time.java:310-319 | a null string is an error, otherwise `parseInternal`; the answer and new fields equal `ParseSpec` |
| Time.ParseRejectsLength | common_library/src/main/java/com/android/kr_common/Time.java:321-356 | fewer than 8 characters fail before anything is written; 9 to 14 fail (as too short once the date digits are read); 15 or more need a `T` at position 8 |
| Time.ParseUtcOnlyWithZ | common_library/src/main/java/com/android/kr_common/Time.java:373-377 | `true` only with a `Z` at position 15, and then the timezone is "UTC"; `false` only for lengths 8 and 15, timezone untouched; null is an error |
| Time.ParseDate | common_library/src/main/java/com/android/kr_common/Time.java:378-383 | an 8-digit DATE (section 3.3.4 of RFC 5545) sets year, month minus 1 and day, all-day, midnight and the cleared derived fields |
| Time.ParseDateNonDigit | common_library/src/main/java/com/android/kr_common/Time.java:330-346 | the first non-digit among the date positions is the error reported |
| Time.ParseTimeNonDigit | common_library/src/main/java/com/android/kr_common/Time.java:358-371 | with a good date and `T`, the first non-digit among the time positions is the error reported |
| Time.Time.Format2445 | common_library/src/main/java/com/android/kr_common/Time.java:495-500 | fails exactly without a timezone; the text ends in `Z` exactly when the timezone is "UTC" |
| Time.FormatParseRoundTrip | common_library/src/main/java/com/android/kr_common/Time.java:495-500 | for a four-digit year and two-digit fields, parsing the DATE-TIME text (section 3.3.5 of RFC 5545) gives back date and time, and `true` with "UTC" exactly for UTC |
| Time.Time.GetActualMaximum | common_library/src/main/java/com/android/kr_common/Time.java:410-443 | MONTH_DAY succeeds for months 0..11 and is an index error otherwise; WEEK_NUM is not implemented; an unknown field is an error |
| Time.ActualMaximumMonthDay | common_library/src/main/java/com/android/kr_common/Time.java:418-426 | the last day of a month is the Gregorian month length (29 in February of a leap year, 28 otherwise) |
| Time.ActualMaximumYearDay | common_library/src/main/java/com/android/kr_common/Time.java:433-437 | the last day of the year, counted from 0, is the year length minus one: 365 in a leap year, else 364 |
| Time.Time.Normalize | common_library/src/main/java/com/android/kr_common/Time.java:244-297 | the new fields are a normalization of the old ones (see `NormalizationIsNormal`), with the carries evidently intended |
| Time.NormalizeValues | common_library/src/main/java/com/android/kr_common/Time.java:244-297 | the three steps of `normalize` on field values produce a normalization of the input fields |
| Time.CarrySeconds | common_library/src/main/java/com/android/kr_common/Time.java:246-264 | the seconds carry with `>=`: the day count and rest are the floor quotient and remainder by a day |
| Time.CarryMonths | common_library/src/main/java/com/android/kr_common/Time.java:267-280 | the month carry moving the year the intended way: year plus month div 12, month mod 12 |
| Time.DayOfMonthCarry | common_library/src/main/java/com/android/kr_common/Time.java:281-294 | from the first of the month back or forward by the days: a valid date whose day number is that of the first plus the day minus one |
| Time.PlusDays | common_library/src/main/java/com/android/kr_common/Time.java:282-294 | Joda `plusDays`/`minusDays`: a valid date whose day number is the start plus the days |
| Time.CarryUpAsWritten | common_library/src/main/java/com/android/kr_common/Time.java:248-254 | the loop for a negative total keeps total plus carried days fixed and ends with a rest in 0..86399 |
| Time.CarryDownAsWritten | common_library/src/main/java/com/android/kr_common/Time.java:255-261 | the `>` loop keeps total plus carried days fixed and ends with a rest in 1..86400 for a positive total |
| Time.SecondsCarryAsWritten | common_library/src/main/java/com/android/kr_common/Time.java:246-264 | the seconds carry as written keeps the instant but leaves a rest in 0..86400 (a whole day possible) |
| Time.SecondsCarryAsWrittenDiffers | common_library/src/main/java/com/android/kr_common/Time.java:256-260 | the carry as written differs from floor division exactly on positive whole days |
| Time.SecondsCarryAsWrittenHour24 | common_library/src/main/java/com/android/kr_common/Time.java:256-264 | 86400 seconds come out as hour 24 with no day carried |
| Time.MonthCarryUpAsWritten | common_library/src/main/java/com/android/kr_common/Time.java:268-273 | the `month < 0` loop as written: month mod 12, and the year moved up by the months carried |
| Time.MonthCarryDownAsWritten | common_library/src/main/java/com/android/kr_common/Time.java:274-279 | the `month > 11` loop as written: month mod 12, and the year moved down by the months carried |
| Time.MonthCarryAsWritten | common_library/src/main/java/com/android/kr_common/Time.java:267-280 | as written the month lands in 0..11 but the year moves the wrong way |
| Time.MonthCarryAsWrittenDiffers | common_library/src/main/java/com/android/kr_common/Time.java:267-280 | the carry as written keeps the months since year 0 exactly when there is nothing to carry |
| Time.MonthCarryAsWrittenGoesBack | common_library/src/main/java/com/android/kr_common/Time.java:267-280 | month 12 of 2020 becomes January 2019 |
| Time.NormalizationIsNormal | common_library/src/main/java/com/android/kr_common/Time.java:246-294 | a normalization has minute and second in 0..59, hour in 0..23, a valid date, and the same instant as the input |
| Time.NormalizationUnique | common_library/src/main/java/com/android/kr_common/Time.java:244-297 | there is only one normalization of given fields |
| Time.NormalizationOfNormal | common_library/src/main/java/com/android/kr_common/Time.java:244-297 | fields already in range keep their date and time |
| Time.SecondsOfDay | common_library/src/main/java/com/android/kr_common/Time.java:262-264 | hour, minute and second computed from a rest below a day are in range and add back to the rest |
| Time.Time.ClearWithTimezone | common_library/src/main/java/com/android/kr_common/Time.java:455-470 | a null timezone raises and changes nothing; otherwise every field is zeroed, `isDst` kept and the timezone stored |
| Time.Time.Clear | common_library/src/main/java/com/android/kr_common/Time.java:472-483 | every field zeroed except the month, set to 1, with `isDst` and the timezone kept |
| Time.IsLastWeek | common_library/src/main/java/com/android/kr_common/Time.java:604-608 | fails exactly on an invalid date, hour or minute; otherwise true exactly when the date a week later is in another month |
| Time.WeekLater | common_library/src/main/java/com/android/kr_common/Time.java:604-608 | the date a week later is valid, seven days on, and in the same month exactly when the month has seven more days |
| Time.WeekIntoNextMonth | common_library/src/main/java/com/android/kr_common/Time.java:604-608 | in the last week of a month the date a week later is in another month |
| LunarCoreHelper.JdFromDateFormulas | src/com/android/calendar/utils/LunarCoreHelper.java:19-31 | from year 1 on, `jdFromDate` is the Gregorian day number, replaced by the Julian-calendar number when the former is below 2299161 |
| LunarCoreHelper.GregorianAfterReform | src/com/android/calendar/utils/LunarCoreHelper.java:19-31 | Gregorian dates from 1582-10-15 on have day numbers from 2299161 on, so they keep the Gregorian formula |
| LunarCoreHelper.JulianBeforeReform | src/com/android/calendar/utils/LunarCoreHelper.java:19-31 | Julian dates before 1582-10-15 fall below 2299161 under both formulas, so the fallback applies |
| LunarCoreHelper.JdToDateGregorian | src/com/android/calendar/utils/LunarCoreHelper.java:38-43 | above 2299160 `jdToDate` is the Gregorian inverse of the day number |
| LunarCoreHelper.JdToDateJulian | src/com/android/calendar/utils/LunarCoreHelper.java:44-54 | from -32082 up to 2299160 `jdToDate` is the Julian-calendar inverse |
| LunarCoreHelper.JulianRoundTrip | src/com/android/calendar/utils/LunarCoreHelper.java:44-54 | the Julian inverse undoes the Julian day number on valid Julian dates |
| LunarCoreHelper.RoundTrip | src/com/android/calendar/utils/LunarCoreHelper.java:19-55 | `jdToDate(jdFromDate(d, m, y)) == (d, m, y)` for every date of the hybrid calendar from year 1 on |
| LunarCoreHelper.Consecutive | src/com/android/calendar/utils/LunarCoreHelper.java:19-31 | consecutive days of one month of the hybrid calendar have consecutive day numbers |
| LunarCoreHelper.JdToDateRange | src/com/android/calendar/utils/LunarCoreHelper.java:48-54 | from -32082 on `jdToDate` gives a month in 1..12 and a day in 1..31 |
| CalendarUtil.GetMonthDaysCount | src/com/android/calendar/kr/common/CalendarUtil.java:47-69 | 31, 30, 29 (leap) or 28 (otherwise) by the Gregorian table, and 0 for a month outside 1..12 |
| CalendarUtil.IsLeapYearGregorian | src/com/android/calendar/kr/common/CalendarUtil.java:76-78 | `isLeapYear` is the 4/100/400 rule and holds exactly for 366-day years |
| CalendarUtil.MonthDaysIsGap | src/com/android/calendar/kr/common/CalendarUtil.java:47-69 | a month length is the distance from its first day to the first day of the next month |
| CalendarUtil.MonthViewStartDiff | src/com/android/calendar/kr/common/CalendarUtil.java:85-90 | the weekday offset of the first of the month lies in 0..6 |
| CalendarUtil.FrameNeighbours | src/com/android/calendar/kr/common/CalendarUtil.java:168-187 | the month before and after, with January wrapping to December of the year before and December to January of the year after |
| CalendarUtil.InitCalendarForMonthView | src/com/android/calendar/kr/common/CalendarUtil.java:157-212 | exactly 42 cells, cell `i` being the grid cell `GridCell(year, month, currentDate, i)` |
| CalendarUtil.GridConsecutive | src/com/android/calendar/kr/common/CalendarUtil.java:189-211 | from 1583 on, the cells are 42 consecutive valid dates from the Sunday on or before the first, flagged current-month exactly in the month |
| CalendarUtil.LeadingCell | src/com/android/calendar/kr/common/CalendarUtil.java:191-194 | the cells before the first of the month are the last days of the month before, not flagged |
| CalendarUtil.MonthCell | src/com/android/calendar/kr/common/CalendarUtil.java:200-205 | the cells from `preDiff` are the days of the month, in order, flagged current-month |
| CalendarUtil.TrailingCell | src/com/android/calendar/kr/common/CalendarUtil.java:195-199 | the cells after the month are days 1, 2, ... of the next month, not flagged |
| CalendarUtil.GridCurrentDay | src/com/android/calendar/kr/common/CalendarUtil.java:206-208 | a cell is flagged as the current day exactly when it equals the current date |
| CalendarUtil.GridCurrentDayUnique | src/com/android/calendar/kr/common/CalendarUtil.java:206-208 | at most one cell of the grid is the current day |
| CalendarUtil.RangeCalendar | src/com/android/calendar/kr/common/CalendarViewDelegate.java:267-286 | the range limit calendar carries its date and is the current day exactly when it equals the current date |
| CalendarUtil.PageDateMonth | src/com/android/calendar/kr/common/CalendarUtil.java:220-224 | page `p` shows day 1 of the month `p` months after the first month of the range |
| CalendarUtil.PageDateInjective | src/com/android/calendar/kr/common/CalendarUtil.java:220-224 | distinct pages show distinct months |
| CalendarUtil.FirstCalendarInRange | src/com/android/calendar/kr/common/CalendarUtil.java:220-238 | the page date is kept when in range and otherwise replaced by the nearer limit; with ordered limits the result is in range; flags follow the current day |
| Calendar.EqualsEquivalence | src/com/android/calendar/kr/common/Calendar.java:124-131 | `equals` is an equivalence that compares year, month and day only, and is false for null |
| Calendar.EqualsSameMonth | src/com/android/calendar/kr/common/Calendar.java:97-99 | equal dates are in the same month, and `isSameMonth` is symmetric |
| Calendar.ToStringFields | src/com/android/calendar/kr/common/Calendar.java:133-136 | the text is the year followed by the month and the day in two digits each |
| Calendar.CompareToConsistentWithEquals | src/com/android/calendar/kr/common/Calendar.java:117-131 | with months and days below 100, `compareTo` is 0 exactly for equal dates |
| Calendar.CompareToNullAndAntisymmetry | src/com/android/calendar/kr/common/Calendar.java:117-122 | null ranks below everything, and swapping the dates negates the comparison |
| Calendar.CompareToChronological | src/com/android/calendar/kr/common/Calendar.java:117-122 | for non-negative years of equal width, the sign of `compareTo` is the chronological order |
| Utils.ScanFrom | src/com/android/calendar/utils/Utils.java:845-877 | the scan stops inside the text and counts at most one digit per character passed, or fails on a 12th digit |
| Utils.ScanStops | src/com/android/calendar/utils/Utils.java:845-877 | where the scan stops it has counted the digits passed and kept the first, everything passed is passable, and an early stop is at a character neither digit nor allowed symbol |
| Utils.NumberStart | src/com/android/calendar/utils/Utils.java:834-837 | the digits are looked for at the start or after a four-character prefix |
| Utils.TelPrefixSkipped | src/com/android/calendar/utils/Utils.java:834-837 | a `tel:` prefix (RFC 3966) in any letter case is skipped |
| Utils.MatchEnd | src/com/android/calendar/utils/Utils.java:817-885 | the match end is -1 or lies after the start, in the text |
| Utils.FindNanpMatchEnd | src/com/android/calendar/utils/Utils.java:817-885 | the answer is the match end `MatchEnd`: the end of a 7- or 10-digit number or an 11-digit one starting with 1, after an optional `tel:` prefix, or -1 |
| Utils.ScanNumber | src/com/android/calendar/utils/Utils.java:839-885 | the scan loop answers the verdict of the reference scan `ScanFrom` from the first digit position: -1 when a twelfth digit turns up or the digits where it stops are no NANP number, else the position where it stops |
| Utils.MatchDigits | src/com/android/calendar/utils/Utils.java:879-884 | a match holds 7 or 10 digits not starting with 1, or 11 starting with 1 |
| Utils.TooManyDigitsFail | src/com/android/calendar/utils/Utils.java:858-861 | twelve digits in a row make the match fail with -1 |
| Utils.EndMarkerStops | src/com/android/calendar/utils/Utils.java:845-851 | the end marker stops every scan |
| Utils.SymbolsContinue | src/com/android/calendar/utils/Utils.java:872-874 | apart from digits and spaces, exactly the symbols `()+-*#.` let the scan go on |
| Utils.SkipSpaces | src/com/android/calendar/utils/Utils.java:781-784 | the position reached is the first non-whitespace character from the start on, or the bound |
| Utils.SkipWord | src/com/android/calendar/utils/Utils.java:796-799 | the position reached is the first whitespace character from the start on, or the bound, and it is past the start when the start is not whitespace |
| Utils.SkipWhitespace | src/com/android/calendar/utils/Utils.java:781-784 | the whitespace-skipping loop stops where `SkipSpaces` says |
| Utils.SkipToWhitespace | src/com/android/calendar/utils/Utils.java:796-799 | the loop that skips a word stops where `SkipWord` says |
| Utils.FindNanpPhoneNumbers | src/com/android/calendar/utils/Utils.java:767-808 | the list is exactly `Numbers(text)`, the search defined round by round (skip whitespace; report a match and jump past it, or skip the word); no match in text shorter than 7 characters; an even-length list of matches `MatchList` of the text |
| Utils.NumbersMatches | src/com/android/calendar/utils/Utils.java:767-808 | every reported pair is a match of `findNanpMatchEnd` at a non-whitespace start, the pairs come in order, and the list has even length |
| Utils.NumbersFromMatchList | src/com/android/calendar/utils/Utils.java:780-801 | the pairs reported from a position on are matches starting at or after it, in order |
| Utils.WhitespaceNoMatch | src/com/android/calendar/utils/Utils.java:817-885 | no number starts at a whitespace character |
| Utils.FirstNumberFound | src/com/android/calendar/utils/Utils.java:780-794 | a number at the start of the text is the first pair reported, with the end `findNanpMatchEnd` gives |
| Utils.MatchListOrdered | src/com/android/calendar/utils/Utils.java:767-808 | each pair is non-empty, pairs are ordered and do not overlap |
| Utils.MatchListEven | src/com/android/calendar/utils/Utils.java:767-808 | the list has an even length |
| Utils.SpanWillOverlap | src/com/android/calendar/utils/Utils.java:1104-1122 | true exactly for a non-empty span that starts or ends inside an existing span |
| Utils.GetUpperString | src/com/android/calendar/utils/Utils.java:489-491 | fails exactly on the empty string |
| Utils.UpperStringProperties | src/com/android/calendar/utils/Utils.java:489-491 | keeps the length and tail, leaves no lower-case letter in front, and is idempotent |
| DeclinedColor.GetDeclinedColorFromColor | src/com/android/calendar/utils/Utils.java:514-521 | the declined colour is always opaque (alpha 0xff) |
| DeclinedColor.DeclinedColorChannels | src/com/android/calendar/utils/Utils.java:514-521 | each of red, green and blue is the channel blended with white |
| RecurrencePicker.EventRecurrence.constructor | src/com/android/calendar/recurrencepicker/RecurrencePickerDialog.java:129 | the rule the dialog creates has the field defaults of the `EventRecurrence` library class: no start date, every number 0 and every array null |
| RecurrencePicker.CanHandleRecurrenceRule | src/com/android/calendar/recurrencepicker/RecurrencePickerDialog.java:762-815 | the early returns and counting loop answer `CanHandle` of the rule |
| RecurrencePicker.CanHandleMeaning | src/com/android/calendar/recurrencepicker/RecurrencePickerDialog.java:762-815 | accepted exactly: one of the four frequencies, not count and until together, at most one positive `bydayNum` and only when monthly, at most one month day, and monthly with at most one weekday and not with a month day |
| RecurrencePicker.CopyModelToEventRecurrence | src/com/android/calendar/recurrencepicker/RecurrencePickerDialog.java:662-760 | the rule written is the copy specification `CopySpec`, with its failures raised; the final `CannotHandle` never happens |
| RecurrencePicker.WriteHead | src/com/android/calendar/recurrencepicker/RecurrencePickerDialog.java:668-680 | the start date only when none, the frequency, and the interval |
| RecurrencePicker.WriteEnd | src/com/android/calendar/recurrencepicker/RecurrencePickerDialog.java:683-705 | the end: until date, count or neither, with their failures |
| RecurrencePicker.WriteByRules | src/com/android/calendar/recurrencepicker/RecurrencePickerDialog.java:708-753 | both counts reset, then the monthly or weekly by-rules |
| RecurrencePicker.SetMonthDay | src/com/android/calendar/recurrencepicker/RecurrencePickerDialog.java:713-723 | a monthly-by-date rule holds the one month day, with count 1 |
| RecurrencePicker.SetNthDay | src/com/android/calendar/recurrencepicker/RecurrencePickerDialog.java:724-731 | a monthly nth-weekday rule holds one weekday and its ordinal, with count 1 |
| RecurrencePicker.WeeklyByDay | src/com/android/calendar/recurrencepicker/RecurrencePickerDialog.java:733-753 | the weekly days: as many as checked, ascending, every `bydayNum` 0 |
| RecurrencePicker.CountChecked | src/com/android/calendar/recurrencepicker/RecurrencePickerDialog.java:734-739 | the count loop counts the checked weekdays |
| RecurrencePicker.FillDescending | src/com/android/calendar/recurrencepicker/RecurrencePickerDialog.java:747-752 | the descending loop fills the days ascending and the numbers with 0 |
| RecurrencePicker.ChecksFromOrdered | src/com/android/calendar/recurrencepicker/RecurrencePickerDialog.java:733-753 | the checked days are strictly ascending and a day is there exactly when checked |
| RecurrencePicker.CopyIsHandled | src/com/android/calendar/recurrencepicker/RecurrencePickerDialog.java:756-759 | the copy always yields a rule `canHandleRecurrenceRule` accepts, so the copy never raises at the end |
| RecurrencePicker.CopyWeekly | src/com/android/calendar/recurrencepicker/RecurrencePickerDialog.java:733-753 | weekly: the checked weekdays, once each, ascending, with every `bydayNum` 0 |
| RecurrencePicker.CopyEnds | src/com/android/calendar/recurrencepicker/RecurrencePickerDialog.java:664-705 | no recurrence raises before writing; the start date only filled in; interval 0 unless above 1; until with count 0, positive count with no until, or neither; a missing date or bad count raises |
| RecurrencePicker.AfterTextChanged | src/com/android/calendar/recurrencepicker/RecurrencePickerDialog.java:1628-1653 | the parsed value (the default when unparsable) raised to the minimum or lowered to the maximum; a clamped value replaces the text |
| RecurrencePicker.WatcherClamps | src/com/android/calendar/recurrencepicker/RecurrencePickerDialog.java:1628-1653 | with ordered bounds the value is within them, the default for unparsable text, and the text reads back as the value |
| RecurrencePicker.OnEndSelected | src/com/android/calendar/recurrencepicker/RecurrencePickerDialog.java:1294-1325 | the chosen end is stored, and for END_BY_COUNT the count is moved into 1..COUNT_MAX, an in-range count kept |
| RecurrencePicker.EndCountFieldWithinClamp | src/com/android/calendar/recurrencepicker/RecurrencePickerDialog.java:448 | every count the end-count field lets through (1..300) is left alone by the spinner clamp |
| CalendarEventModel.EqualsMeaning | src/com/android/calendar/event/CalendarEventModel.java:833-850 | two reminders are equal exactly when their minutes agree and their methods agree, DEFAULT and ALERT counting as one; an equivalence |
| CalendarEventModel.CompareToMeaning | src/com/android/calendar/event/CalendarEventModel.java:858-867 | negative exactly for more minutes, or equal minutes and a smaller method; antisymmetric; 0 only for identical reminders |
| CalendarEventModel.LeTotalOrder | src/com/android/calendar/event/CalendarEventModel.java:858-867 | the order `compareTo` induces is total, antisymmetric and transitive |
| CalendarEventModel.Sort | src/com/android/calendar/event/CalendarEventModel.java:692 | `Collections.sort`: a sorted permutation of the reminders |
| CalendarEventModel.SortedPermutationUnique | src/com/android/calendar/event/CalendarEventModel.java:692 | only one sorted rearrangement exists, so any correct sort gives `Sort` |
| CalendarEventModel.Insert | src/com/android/calendar/event/CalendarEventModel.java:692 | inserting adds exactly the one reminder |
| CalendarEventModel.InsertSorted | src/com/android/calendar/event/CalendarEventModel.java:692 | inserting into a sorted list keeps it sorted |
| CalendarEventModel.CalendarEventModel.DropRepeats | src/com/android/calendar/event/CalendarEventModel.java:695-703 | the descending removal loop yields the walk `Dedup` of the list |
| CalendarEventModel.DedupNoAdjacentEqual | src/com/android/calendar/event/CalendarEventModel.java:695-703 | after the walk no two neighbouring reminders are equal |
| CalendarEventModel.DedupSortedCover | src/com/android/calendar/event/CalendarEventModel.java:695-703 | on a sorted list the walk keeps the order, keeps only entries of the list, and every dropped entry equals a kept one |
| CalendarEventModel.CalendarEventModel.NormalizeReminders | src/com/android/calendar/event/CalendarEventModel.java:686-706 | always true, and only the reminders change; at most one reminder is left alone; otherwise sorted, no adjacent equal pair, only old reminders, each old one still represented |
| CalendarEventModel.CalendarEventModel.IsValid | src/com/android/calendar/event/CalendarEventModel.java:176-187 | valid exactly when a calendar is chosen and the owner account is non-empty |
| CalendarEventModel.CalendarEventModel.IsEmpty | src/com/android/calendar/event/CalendarEventModel.java:192-204 | empty exactly when title and description are both blank |
| CalendarEventModel.BlankTrim | src/com/android/calendar/event/CalendarEventModel.java:192-204 | blank means null or empty after `trim` |
| CalendarEventModel.CalendarEventModel.Clear | src/com/android/calendar/event/CalendarEventModel.java:209-265 | every modelled field gets its cleared value; the event type stays |
| CalendarEventModel.CalendarEventModel.ClearIdentity | src/com/android/calendar/event/CalendarEventModel.java:209-265 | uri, ids, owner, organizer and series flags, and the reminder list cleared |
| CalendarEventModel.CalendarEventModel.ClearTexts | src/com/android/calendar/event/CalendarEventModel.java:209-265 | title, location, description, rule, duration and timezone nulled |
| CalendarEventModel.CalendarEventModel.ClearTimes | src/com/android/calendar/event/CalendarEventModel.java:209-265 | times -1, flags off, access and status at their defaults |
| CalendarEventModel.CalendarEventModel.ClearColours | src/com/android/calendar/event/CalendarEventModel.java:209-265 | both colours -1 and not initialized |
| CalendarEventModel.CalendarEventModel.ClearedIsInvalidAndEmpty | src/com/android/calendar/event/CalendarEventModel.java:176-265 | a cleared event is neither valid nor non-empty |
| CalendarEventModel.CalendarEventModel.constructor | src/com/android/calendar/event/CalendarEventModel.java:47-124 | the field initialisers and the constructor give the cleared values, an empty reminder list and the default timezone, so a new event is invalid and empty |
| CalendarEventModel.CalendarEventModel.SetCalendarColor | src/com/android/calendar/event/CalendarEventModel.java:725-728 | stores the calendar colour and marks it set; no other field of the event changes |
| CalendarEventModel.CalendarEventModel.SetEventColor | src/com/android/calendar/event/CalendarEventModel.java:734-737 | stores the event colour and marks it set; no other field of the event changes |
| EventViewUtils.ConstructReminderLabel | src/com/android/calendar/event/EventViewUtils.java:54-71 | minutes when not a multiple of 60, hours when a multiple of 60 but not of 1440, else days; value times unit is the minutes |
| EventViewUtils.LabelIsCoarsest | src/com/android/calendar/event/EventViewUtils.java:54-71 | the unit chosen is the largest that divides the minutes |
| EventViewUtils.IndexOf | src/com/android/calendar/event/EventViewUtils.java:134 | `indexOf`: -1 exactly when absent, else the first index holding the value |
| EventViewUtils.FindInReminderList | src/com/android/calendar/event/EventViewUtils.java:82-100 | the first index of the value when present, else 0 |
| EventViewUtils.InsertionIndex | src/com/android/calendar/event/EventViewUtils.java:141-152 | the index of the first larger value, or the end |
| EventViewUtils.AddMinutesToList | src/com/android/calendar/event/EventViewUtils.java:131-153 | nothing when the minutes are listed; otherwise value and label inserted at the same index before the first larger value; lengths stay equal |
| EventViewUtils.InsertKeepsAscending | src/com/android/calendar/event/EventViewUtils.java:141-152 | an ascending list stays ascending and gains just the new value |
| EventViewUtils.ParseAll | src/com/android/calendar/event/EventViewUtils.java:164-175 | all pieces parsed, one value per piece |
| EventViewUtils.ParseAllMeaning | src/com/android/calendar/event/EventViewUtils.java:167-174 | parsing fails exactly when some piece is not a number, else piece `i` gives value `i` |
| EventViewUtils.ParseAllowed | src/com/android/calendar/event/EventViewUtils.java:164-175 | the parse loop succeeds exactly when every piece parses, with the values in order |
| EventViewUtils.RemoveDisallowed | src/com/android/calendar/event/EventViewUtils.java:177-191 | the descending removal keeps exactly the allowed values and their labels, lengths equal |
| EventViewUtils.ReduceMethodList | src/com/android/calendar/event/EventViewUtils.java:161-192 | both lists unchanged when a piece fails to parse; otherwise only allowed values and their labels remain |
| EventViewUtils.KeepMeaning | src/com/android/calendar/event/EventViewUtils.java:177-191 | the values kept are exactly those in both lists, each with the label it had |
| EventTypeManager.GetEventTypeFromId | src/com/android/calendar/event/EventTypeManager.java:38-48 | the entry with the identifier when known, else the default entry at index 0 |
| EventTypeManager.TableLayout | src/com/android/calendar/event/EventTypeManager.java:9-32 | the table has 8 entries, identifier `k` at index `k - 1`, the count constant its length, default at 0 |
| EventTypeManager.LookupIsIndex | src/com/android/calendar/event/EventTypeManager.java:13-32 | identifiers are unique, so a known identifier names exactly its table entry |
| EventManager.CompareIsLexicographic | src/com/android/calendar/event/EventManager.java:57-88 | `compare`, `isEqual`, `isBefore`, `isAfter` and `isEqualOrAfter` follow the lexicographic order on (year, month, day) |
| EventManager.LexBeforeTransitive | src/com/android/calendar/event/EventManager.java:61-88 | the date order is transitive and irreflexive |
| EventManager.ContainsDate | src/com/android/calendar/event/EventManager.java:237-256 | all-day: start date to before end date; timed: start date to end date, the end date only when not ending at midnight or zero-length |
| EventManager.ContainsDateEdges | src/com/android/calendar/event/EventManager.java:237-256 | an event ending before it starts holds no date; a zero-length timed event holds its one date; a one-date all-day span holds none |
| EventManager.EventsOnMeaning | src/com/android/calendar/event/EventManager.java:555-564 | the filter keeps exactly the events that contain the date |
| EventManager.GetEventsFromDate | src/com/android/calendar/event/EventManager.java:555-564 | the loop returns, in order, the events that contain the date |
| EventManager.YearRange | src/com/android/calendar/event/EventManager.java:304-310 | a YEAR range runs 365 or 366 days from January 1 and holds the date |
| EventManager.MonthRange | src/com/android/calendar/event/EventManager.java:313-319 | a MONTH range runs the month length from the first and holds the date |
| EventManager.WeekRange | src/com/android/calendar/event/EventManager.java:323-329 | a WEEK range is seven days from the Sunday on or before the date |
| EventManager.DayRange | src/com/android/calendar/event/EventManager.java:293-340 | a DAY range is the date alone; an unknown range is day 0 |
| EventManager.ResolveEventType | src/com/android/calendar/event/EventManager.java:400-410 | a colour naming a known type is that type; null or unknown gives the default type |
| EventManager.ResolvedTypeIsKnown | src/com/android/calendar/event/EventManager.java:400-410 | every resolved type is in the table, 1..8 |
| CalendarController.PutMeaning | src/com/android/calendar/helper/CalendarController.java:398-407 | `put` keeps keys distinct, maps the key to the new handler with every other entry kept, an existing key in place, a new one last |
| CalendarController.RemoveMeaning | src/com/android/calendar/helper/CalendarController.java:429-440 | `remove` drops exactly the entry with the key, keys distinct |
| CalendarController.RegisterMeaning | src/com/android/calendar/helper/CalendarController.java:398-407 | outside a dispatch the handler is in the map at once; during one the map is untouched and the pending additions hold just it |
| CalendarController.DeregisterMeaning | src/com/android/calendar/helper/CalendarController.java:429-440 | outside a dispatch the key leaves the map and the first handler; during one it is only queued |
| CalendarController.Controller.RegisterEventHandler | src/com/android/calendar/helper/CalendarController.java:398-407 | the new state is `Register` of the old one |
| CalendarController.Controller.RegisterFirstEventHandler | src/com/android/calendar/helper/CalendarController.java:414-423 | the new state is `RegisterFirst` of the old one: registered, and first (pending during a dispatch) |
| CalendarController.Controller.DeregisterEventHandler | src/com/android/calendar/helper/CalendarController.java:429-440 | the new state is `Deregister` of the old one |
| CalendarController.Controller.DeregisterAllEventHandlers | src/com/android/calendar/helper/CalendarController.java:445-454 | the new state is `DeregisterAll`: every key queued during a dispatch, else map and first handler emptied |
| CalendarController.LoopDeliveriesMeaning | src/com/android/calendar/helper/CalendarController.java:336-350 | the map loop serves each key once: those with a supporting handler, not queued for removal, not the first handler |
| CalendarController.DeliveriesMeaning | src/com/android/calendar/helper/CalendarController.java:328-350 | with handlers that make no calls: only supporting, unqueued handlers are served, every such handler is, the first handler first, nobody twice |
| CalendarController.Controller.React | src/com/android/calendar/helper/CalendarController.java:332-347 | a handler's `handleEvent` leaves the registry as its registration calls, applied in order, leave it (`ApplyOps`) |
| CalendarController.Controller.Deliver | src/com/android/calendar/helper/CalendarController.java:328-350 | the keys served and the new registry are `Serve` of the old one: each handler is checked against the removal queue as the reactions of those served before it left it, and reacts before the next is looked at |
| CalendarController.ApplyOpsDeferred | src/com/android/calendar/helper/CalendarController.java:398-454 | during a dispatch, registration calls leave the map, the first handler and the counter alone and only append to the removal queue |
| CalendarController.ServeLoopDeferred | src/com/android/calendar/helper/CalendarController.java:336-350 | during a dispatch, the map loop with reactions leaves the map, the first handler and the counter alone and only appends removals |
| CalendarController.ServeLoopMeaning | src/com/android/calendar/helper/CalendarController.java:336-350 | with reactions, the map loop serves nobody twice, only handlers the plain loop serves with the queue at the start, and every handler the plain loop serves with the queue at the end |
| CalendarController.ServeDeferred | src/com/android/calendar/helper/CalendarController.java:328-350 | during a dispatch, serving (first handler and loop) leaves the map, the first handler and the counter alone and only appends removals |
| CalendarController.ServeLoopPart | src/com/android/calendar/helper/CalendarController.java:336-350 | the loop part of a dispatch serves nobody twice, only supporting map handlers unqueued at the start and not the first, and every such handler still unqueued at the end |
| CalendarController.ServeMeaning | src/com/android/calendar/helper/CalendarController.java:328-350 | with reactions: map and first handler untouched, removals only appended; nobody served twice; a served key was unqueued at the start and is the first handler or a supporting map handler; every other supporting map handler unqueued at the end is served; the first handler is served first |
| CalendarController.ServeWithoutReactions | src/com/android/calendar/helper/CalendarController.java:328-350 | handlers that make no calls get exactly `Deliveries` and leave the registry as it was |
| CalendarController.ApplyOpsValid | src/com/android/calendar/helper/CalendarController.java:398-454 | registration calls keep keys distinct in the map and the pending additions |
| CalendarController.DispatchValid | src/com/android/calendar/helper/CalendarController.java:320-376 | a whole dispatch keeps keys distinct in the map and the pending additions, whatever the handlers do |
| CalendarController.ExampleFirstServed | src/com/android/calendar/helper/CalendarController.java:336-350 | serving handler 1 runs its reaction, which queues key 2 |
| CalendarController.ExampleSecondSkipped | src/com/android/calendar/helper/CalendarController.java:341-346 | handler 2 is skipped because its key was queued by the time the loop reached it |
| CalendarController.RemovalDuringDispatch | src/com/android/calendar/helper/CalendarController.java:320-376 | a handler deregistered by another during the outermost dispatch is not served and is gone from the map afterwards, with nothing pending |
| CalendarController.Controller.RunDispatch | src/com/android/calendar/helper/CalendarController.java:320-376 | the keys served and the new registry are `Dispatch` of the old one: counted in, served with reactions, counted out, and finished when outermost with the corrected end of dispatch that empties the pending additions (see Findings) |
| CalendarController.RemoveKeysMeaning | src/com/android/calendar/helper/CalendarController.java:356-364 | applying the removals drops exactly the queued keys |
| CalendarController.PutEntriesMeaning | src/com/android/calendar/helper/CalendarController.java:371-375 | applying the additions puts every pending entry and keeps the others |
| CalendarController.EndDispatchMeaning | src/com/android/calendar/helper/CalendarController.java:352-376 | at the outermost end: removals, then the first handler, then the additions applied, with nothing left pending |
| CalendarController.Controller.FinishDispatch | src/com/android/calendar/helper/CalendarController.java:352-376 | the new state is `EndDispatch` of the old one |
| CalendarController.Controller.ApplyRemovals | src/com/android/calendar/helper/CalendarController.java:357-362 | the map is the old one with every queued key removed in order, and the first handler is forgotten exactly when its key was queued |
| CalendarController.Controller.ApplyAdditions | src/com/android/calendar/helper/CalendarController.java:372-374 | the map is the old one with every pending addition put in order |
| CalendarController.DeferredRegistrationLands | src/com/android/calendar/helper/CalendarController.java:398-407 | a registration during a dispatch is in the map when the dispatch ends |
| CalendarController.DeferredRemovalLands | src/com/android/calendar/helper/CalendarController.java:429-440 | a removal during a dispatch takes effect at its end unless the key is also pending |
| CalendarController.EndDispatchKeys | src/com/android/calendar/helper/CalendarController.java:352-376 | a key absent, unqueued and not pending stays absent |
| CalendarController.AsWrittenResurrectsHandler | src/com/android/calendar/helper/CalendarController.java:371-375 | as written, a handler deregistered after a deferred registration comes back at the next dispatch |
| CalendarController.CorrectedKeepsHandlerAway | src/com/android/calendar/helper/CalendarController.java:371-375 | with the pending additions emptied, a deregistered handler stays away |
| CalendarController.Controller.SendEvent | src/com/android/calendar/helper/CalendarController.java:258-384 | CURRENT keeps the stored view type, another becomes it; keys served and new registry are `Dispatch` of the old one with the handlers' reactions, ending with the corrected end of dispatch (see Findings); create or view screen only when nobody took the event |
| CalendarController.BuildViewExtraLong | src/com/android/calendar/helper/CalendarController.java:742-746 | the attendee bit is always set and the all-day bit exactly when all-day |
| CalendarController.IsAllDay | src/com/android/calendar/helper/CalendarController.java:752-758 | only a view event can be all-day |
| CalendarController.ExtraLongRoundTrip | src/com/android/calendar/helper/CalendarController.java:742-758 | a view event built with the flag reports the same all-day flag back |
| CalendarController.Controller.constructor | src/com/android/calendar/helper/CalendarController.java:82-113 | an empty registry, no dispatch, view type and event id unset |
| EditEventHelper.RightsNest | src/com/android/calendar/event/EditEventHelper.java:933-953 | editing the event needs editing the calendar, which on a chosen calendar allows reminders; an unchosen calendar is editable |
| EditEventHelper.ClearedModelRights | src/com/android/calendar/event/EditEventHelper.java:217-251 | a new event may be edited and take reminders but is not saved before a calendar is chosen |
| EditEventHelper.SameEventEquivalence | src/com/android/calendar/event/EditEventHelper.java:655-664 | `isSameEvent` is an equivalence |
| EditEventHelper.SaveEventCheck | src/com/android/calendar/event/EditEventHelper.java:223-251 | save goes ahead exactly for a valid model of the same event, changed, and with a uri only when an original exists; each refusal has its reason |
| EditEventHelper.ProceedHasOriginal | src/com/android/calendar/event/EditEventHelper.java:223-251 | a save going ahead has a chosen calendar, and an update has its original |
| EditEventHelper.Inserts | src/com/android/calendar/event/EditEventHelper.java:691-703 | one insert per reminder, in order, with its minutes and method |
| EditEventHelper.SaveReminders | src/com/android/calendar/event/EditEventHelper.java:675-744 | false and no ops when equal and not forced; otherwise one delete then one insert per reminder, true |
| EditEventHelper.SameRemindersMeaning | src/com/android/calendar/event/EditEventHelper.java:679 | lists equal to themselves are not rewritten; a different length or a differing entry always is |
| EditEventHelper.AddRecurrenceRule | src/com/android/calendar/event/EditEventHelper.java:762-798 | the rule and duration stored and the end nulled, every other column kept |
| EditEventHelper.DurationMeaning | src/com/android/calendar/event/EditEventHelper.java:775-798 | all-day: the fewest whole days covering the event; timed: its whole seconds; end before start: the model duration, else one day or 3600 seconds |
| EditEventHelper.ReadWritten | src/com/android/calendar/event/EditEventHelper.java:775-798 | the duration text written reads back as the number in its unit |
| CalendarRepository.KeepAlphanumeric | src/com/android/calendar/persistence/CalendarRepository.kt:41 | only ASCII letters and digits remain, in order |
| CalendarRepository.KeepAlphanumericMeaning | src/com/android/calendar/persistence/CalendarRepository.kt:41 | letters and digits kept whole, no other character kept, idempotent |
| CalendarRepository.InternalName | src/com/android/calendar/persistence/CalendarRepository.kt:41 | the name starts with `kr_local_` |
| CalendarRepository.InternalNameIgnoresPunctuation | src/com/android/calendar/persistence/CalendarRepository.kt:41 | display names that differ only by a space or a dash give the same name |
| CalendarRepository.BuildLocalCalendar | src/com/android/calendar/persistence/CalendarRepository.kt:40-59 | a local calendar owned by the account, with the derived name, alert reminders only and no attendee types |
| CalendarRepository.AllowedRemindersAreAlertOnly | src/com/android/calendar/persistence/CalendarRepository.kt:56 | the allowed reminders read back as the single method ALERT |
| CalendarRepository.ColorRows | src/com/android/calendar/persistence/CalendarRepository.kt:101-108 | two rows per palette colour, a calendar and an event row, keyed by the index |
| CalendarRepository.ColorRowsCover | src/com/android/calendar/persistence/CalendarRepository.kt:101-108 | every palette colour is offered for calendars and events, all rows local to the account |
| CalendarRepository.AddColorsIdempotent | src/com/android/calendar/persistence/CalendarRepository.kt:92-110 | a second provisioning adds nothing; a first one with colours leaves the account with local colours |
| CalendarRepository.Repository.AreCalendarColorsExisting | src/com/android/calendar/persistence/CalendarRepository.kt:115-126 | true exactly when the store holds a local colour row of the account |
| CalendarRepository.Repository.MaybeAddCalendarAndEventColors | src/com/android/calendar/persistence/CalendarRepository.kt:92-110 | the store becomes `AddColors` of the old store |
| CalendarRepository.Repository.AddLocalCalendar | src/com/android/calendar/persistence/CalendarRepository.kt:81-87 | colours provisioned first; the inserted calendar row and its uri, or an error with no calendar added |
| CalendarRepository.AsLocalCalendarSyncAdapter | src/com/android/calendar/persistence/CalendarRepository.kt:135-140 | same path, three query parameters appended, the old ones kept |
| CalendarRepository.SyncAdapterParameters | src/com/android/calendar/persistence/CalendarRepository.kt:135-140 | the provider reads the sync-adapter flag `true`, the account name and the local type |
| CalendarRepository.Repository.constructor | src/com/android/calendar/persistence/CalendarRepository.kt:81-126 | the store as given |
| AgendaViewModel.SettersMeaning | src/com/android/calendar/agenda/AgendaViewModel.kt:92-153 | each setter lands on the value, touches only its own field, and repeating it changes nothing |
| AgendaViewModel.InputDataMeaning | src/com/android/calendar/agenda/AgendaViewModel.kt:125-139 | `setInputData` saves the requested values and repeating it changes nothing |
| AgendaViewModel.AgendaViewModel.SetStartDate | src/com/android/calendar/agenda/AgendaViewModel.kt:92-102 | fails when nothing is saved; the same instant changes nothing; otherwise only the start replaced and the events reload |
| AgendaViewModel.AgendaViewModel.SetEndDate | src/com/android/calendar/agenda/AgendaViewModel.kt:108-118 | fails when nothing is saved; the same instant changes nothing; otherwise only the end replaced and the events reload |
| AgendaViewModel.AgendaViewModel.SetInputData | src/com/android/calendar/agenda/AgendaViewModel.kt:125-139 | nothing changes when all three match; otherwise the new input is saved and the events reload |
| AgendaViewModel.AgendaViewModel.SetQuery | src/com/android/calendar/agenda/AgendaViewModel.kt:145-153 | fails when nothing is saved; an equal query changes nothing; otherwise only the query replaced |
| AgendaViewModel.AgendaViewModel.Save | src/com/android/calendar/agenda/AgendaViewModel.kt:101 | the input saved and one reload |
| AgendaViewModel.AgendaViewModel.QueryEvents | src/com/android/calendar/agenda/AgendaViewModel.kt:68-86 | no input gives no events; otherwise the provider asked for the saved day range and query |
| AgendaViewModel.AgendaViewModel.LoadEvents | src/com/android/calendar/agenda/AgendaViewModel.kt:49-63 | the events queried, and the observer registered once at most |
| AgendaViewModel.AgendaViewModel.constructor | src/com/android/calendar/agenda/AgendaViewModel.kt:38-44 | the saved input, no reloads and no observer |
| AgendaListViewAdapter.GetDayPosition | src/com/android/calendar/agenda/AgendaListViewAdapter.java:137-164 | the first index touching the day or starting at the next day or later; without one the last index, so -1..count-1 |
| AgendaListViewAdapter.FirstTouching | src/com/android/calendar/agenda/AgendaListViewAdapter.java:154-160 | an answer not touching the day starts the next day or later, and every earlier event started before the day and does not end in it |
| AgendaListViewAdapter.AllDayEndExclusive | src/com/android/calendar/agenda/AgendaListViewAdapter.java:145-148 | an all-day event ends 1 ms before the midnight of its end date, so it does not touch the day starting there |
| GridSpacing.Column | src/com/android/calendar/event/custom/GridSpacingItemDecoration.java:25-26 | the column of a non-negative position lies in 0..spanCount-1 |
| GridSpacing.GridSpacingItemDecoration.constructor | src/com/android/calendar/event/custom/GridSpacingItemDecoration.java:17-21 | span count, spacing and edge flag as given |
| GridSpacing.GridSpacingItemDecoration.GetItemOffsets | src/com/android/calendar/event/custom/GridSpacingItemDecoration.java:24-35 | left and right are the insets of the column in the edge mode; top and bottom untouched |
| GridSpacing.NeighboursShareSpacing | src/com/android/calendar/event/custom/GridSpacingItemDecoration.java:28-34 | in both modes the right inset of a column and the left inset of the next add up to the spacing |
| GridSpacing.OuterEdges | src/com/android/calendar/event/custom/GridSpacingItemDecoration.java:28-34 | without edges the outer insets are 0; with edges they are the spacing |
| GridSpacing.InsetsWithinSpacing | src/com/android/calendar/event/custom/GridSpacingItemDecoration.java:31-34 | without edges each inset lies in 0..spacing |
| YearPagerAdapter.DayBeforeMeaning | src/com/android/calendar/kr/year/YearPagerAdapter.java:64-69 | the day before a valid date is valid and one day earlier |
| YearPagerAdapter.MonthSpan | src/com/android/calendar/kr/year/YearPagerAdapter.java:71-82 | both ends of the span lie in 0..11 |
| YearPagerAdapter.InSpanIffCovers | src/com/android/calendar/kr/year/YearPagerAdapter.java:71-86 | for an event overlapping the year, counted in a month exactly when it runs through it |
| YearPagerAdapter.Count | src/com/android/calendar/kr/year/YearPagerAdapter.java:84-86 | a month count is at most the number of events |
| YearPagerAdapter.CountMeaning | src/com/android/calendar/kr/year/YearPagerAdapter.java:53-87 | with events overlapping the year, each count is the number of events running through the month |
| YearPagerAdapter.CountGrows | src/com/android/calendar/kr/year/YearPagerAdapter.java:54-55 | counts only grow as events are added |
| YearPagerAdapter.AllDayEndExclusive | src/com/android/calendar/kr/year/YearPagerAdapter.java:64-69 | an all-day event ending on the first of a month is not counted in that month |
| YearPagerAdapter.YearPager.CountEventsPerMonth | src/com/android/calendar/kr/year/YearPagerAdapter.java:53-87 | twelve fresh counts, each the `Count` of its month |
| YearPagerAdapter.YearPager.PagesAreYears | src/com/android/calendar/kr/year/YearPagerAdapter.java:99-101 | the pages are exactly the years from minimum to maximum, one each |
| YearPagerAdapter.YearPager.constructor | src/com/android/calendar/kr/year/YearPagerAdapter.java:99-101 | the year bounds as given |

## Left out

- I/O is not modelled: the content provider, its queries, batches and observers; logging; intents and activity launches (`sendEvent` reports which screen it would start).
- Joda `DateTime` and time zones: an instant and its calendar fields are given together (`EventManager.DateTime`), and `Time.getJulianDay` is the Gregorian day count. In `normalize`, `calculate` is modelled as the weekday of the new date plus `gmtoff` from a raw time-zone offset given as a parameter. The instant that `toMillis` answers is not returned.
- Concurrency is not modelled: the year view's worker thread, the agenda view model's coroutines and live data, and the observer race.
- Character classes are ASCII only: `Character.isDigit`, `isWhitespace` and `toUpperCase` beyond ASCII are not modelled.
- Java `int`/`long` overflow is modelled only in the declined-colour blend, where it matters. Elsewhere integers are unbounded.
- `EventRecurrence` is a record of the fields the picker and the check use. Its parser, `toString` and other fields are not modelled; `timeDay2Day` is given by its weekday table.
- `Time.Time.Format2445` writes ASCII digits, the text of a default locale whose zero digit is `'0'`. `String.format` at `Time.java` line 496 uses the default locale, and the digits of other locales (Arabic, Persian, …) are not modelled.
- `RecurrencePicker.CanHandleRecurrenceRule` requires the `bydayNum` entries it reads to be present. The null-pointer or out-of-bounds exception that `RecurrencePickerDialog.java` line 787 raises on a missing or short `bydayNum` is not modelled. The rules passed in are parsed rules or the dialog's own copy, which `RecurrencePicker.CopyIsHandled` proves readable.
- The labels' resource strings (`constructReminderLabel`, the watcher's text) are not modelled; the model keeps the unit and the number.
- `CalendarEventModel.CalendarEventModel.Clear` covers the fields that the rest of this model reads. The sync, organizer, attendee, original-event and allowed-lists fields are not modelled, and neither are the colour cache and the attendee map.
- `EditEventHelper.SaveEventCheck`: whether the model is unchanged since the original (`model.isUnchanged(original)`, a comparison of every field) is an input. The provider operations after the guards are not modelled.
- Dates in `AgendaViewModel` are compared by their instant only, as the source does.
- `AgendaListViewAdapter.GetDayPosition` takes the midnight of a date in the device's time zone as a function parameter.
- `Time.IsLastWeek`: Joda's refusal of an invalid date, hour or minute is modelled as `None`, not as an exception.
- `Time.Time.Normalize` implements the carries as evidently intended (see Findings). The loops as written are modelled by the functions named there.
- `CalendarController.EndDispatchMeaning` is stated for the corrected end of dispatch that empties the pending additions. The code as written is `EndDispatchAsWritten` (see Findings).
- `CalendarController.Controller.FinishDispatch` runs the corrected end of dispatch: it empties the pending additions, which lines 371-375 do not (see Findings).
- `CalendarController.Controller.RunDispatch` and `CalendarController.Controller.SendEvent` end the outermost dispatch through `FinishDispatch`. That is the corrected `EndDispatch`, which empties the pending additions; lines 371-375 do not (see Findings).
- `CalendarController.Controller.SendEvent` does not model the time bookkeeping of lines 277-301 (`mTime`, `selectedTime`, `startTime`), nor the start, end, title and calendar passed to the launched screen.
- `CalendarController.Controller.Deliver` and `CalendarController.Controller.SendEvent` model a handler's `handleEvent` as the registration calls it makes (`RegistryOp`), given per handler by a function `reacts`. A reaction is the same each time a handler is served. A nested `sendEvent` from inside a handler is not modelled, and neither is anything else `handleEvent` does.
- `LunarCoreHelper.RoundTrip` holds on the hybrid calendar from year 1 on. The ten days 1582-10-05 to 1582-10-14 do not exist there and are excluded. Years before 1 are not covered.
- `Calendar.CompareToChronological` is stated for non-negative years written with the same number of digits, because `compareTo` compares the texts.
- The astronomy of `LunarCoreHelper` (solar longitude, new moons, lunar dates) uses floating point and is not modelled. Only the integer day conversions are.

## Findings

| source | as written | input that shows it | evidently intended | confidence | as-written member | corrected member |
|---|---|---|---|---|---|---|
| common_library/src/main/java/com/android/kr_common/Time.java:256-260 | `while (totalSecond > ONE_DAY_SECONDS)` stops at a whole day | hour 24, minute 0, second 0 (86400 seconds) normalizes to hour 24 with no day carried | `>=`, so the rest is below a day and the day is carried | not executed | Time.SecondsCarryAsWritten | Time.CarrySeconds |
| common_library/src/main/java/com/android/kr_common/Time.java:267-280 | a negative month adds a year and a month above 11 subtracts one | month 12 of 2020 (January 2021) becomes January 2019 | subtract a year per 12 months below 0, add one per 12 months above 11 | not executed | Time.MonthCarryAsWritten | Time.CarryMonths |
| src/com/android/calendar/helper/CalendarController.java:371-375 | the pending additions are put into the map but never cleared | register key 7 during a dispatch, deregister it outside one, send another event: key 7 is back | clear the pending additions after applying them, as the removals are | not executed | CalendarController.EndDispatchAsWritten | CalendarController.EndDispatch |

The counterexample lemmas are `Time.SecondsCarryAsWrittenHour24`, `Time.MonthCarryAsWrittenGoesBack` and `CalendarController.AsWrittenResurrectsHandler`. The corrected members carry the properties: `Time.CarrySeconds` and `Time.CarryMonths` produce floor quotient and remainder, which gives `Time.NormalizationIsNormal`, and `CalendarController.EndDispatch` carries `CalendarController.EndDispatchMeaning` and `CalendarController.CorrectedKeepsHandlerAway`.
