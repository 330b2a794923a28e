/**
 * `CalendarUtil`: month lengths, leap years, the 42-cell grid of the month view and the
 * first date of a month-view page. The day of `java.util.Calendar` (the hybrid
 * Julian/Gregorian calendar) is the Julian Day Number of `LunarCoreHelper.jdFromDate`;
 * two `java.util.Calendar` instants set to the same time of day compare as their days do.
 */
module CalendarUtil {
  import opened JavaLang
  import opened Wrappers
  import Gregorian
  import LunarCoreHelper
  import opened Calendar

  /** The cells of a month view: six weeks. */
  const GRID_SIZE: int := 42

  /** `isLeapYear`: the Gregorian 4/100/400 rule, with Java's remainder. */
  predicate IsLeapYear(year: int) {
    (JavaRem(year, 4) == 0 && JavaRem(year, 100) != 0) || JavaRem(year, 400) == 0
  }

  /** `getMonthDaysCount`: the length of month 1..12, and 0 for any other month. */
  function GetMonthDaysCount(year: int, month: int): (count: int)
    ensures month == 2 ==> (count == 29 <==> IsLeapYear(year)) && (count == 28 <==> !IsLeapYear(year))
    ensures month in {1, 3, 5, 7, 8, 10, 12} ==> count == 31
    ensures month in {4, 6, 9, 11} ==> count == 30
    ensures !(1 <= month <= 12) ==> count == 0
  {
    var count := if month == 1 || month == 3 || month == 5 || month == 7
      || month == 8 || month == 10 || month == 12 then 31 else 0;
    var count := if month == 4 || month == 6 || month == 9 || month == 11 then 30 else count;
    if month == 2 then (if IsLeapYear(year) then 29 else 28) else count
  }

  /** The day number that `java.util.Calendar.set(year, month - 1, day)` stands for. */
  function CivilDay(year: int, month: int, day: int): int {
    LunarCoreHelper.JdFromDate(day, month, year)
  }

  /** `getMonthViewStartDiff`: the weekday of the first of the month, 0 for Sunday. */
  function MonthViewStartDiff(year: int, month: int): (diff: int)
    ensures 0 <= diff < 7
  {
    Gregorian.DayOfWeek(CivilDay(year, month, 1))
  }

  /** The layout of a month view (source lines 158-187). */
  datatype MonthFrame = MonthFrame(
    preYear: int, preMonth: int, nextYear: int, nextMonth: int,
    preDiff: int, monthDays: int, preMonthDays: int)

  function Frame(year: int, month: int): MonthFrame {
    var preDiff := MonthViewStartDiff(year, month);
    var monthDays := GetMonthDaysCount(year, month);
    var preYear := if month == 1 then year - 1 else year;
    var preMonth := if month == 1 then 12 else month - 1;
    var nextYear := if month == 12 then year + 1 else year;
    var nextMonth := if month == 12 then 1 else month + 1;
    var preMonthDays := if preDiff == 0 then 0 else GetMonthDaysCount(preYear, preMonth);
    MonthFrame(preYear, preMonth, nextYear, nextMonth, preDiff, monthDays, preMonthDays)
  }

  /** Cell `i` of the month view of `year`/`month`, before the current-day flag. */
  function GridDate(year: int, month: int, i: int): Calendar {
    var f := Frame(year, month);
    if i < f.preDiff then DateOf(f.preYear, f.preMonth, f.preMonthDays - f.preDiff + i + 1)
    else if i >= f.monthDays + f.preDiff then DateOf(f.nextYear, f.nextMonth, i - (f.monthDays + f.preDiff) + 1)
    else DateOf(year, month, i - f.preDiff + 1).(isCurrentMonth := true)
  }

  /** Cell `i` as `initCalendarForMonthView` builds it. */
  function GridCell(year: int, month: int, currentDate: Option<Calendar>, i: int): Calendar {
    var c := GridDate(year, month, i);
    c.(isCurrentDay := Equals(c, currentDate))
  }

  /** `initCalendarForMonthView`: the 42 cells of the month view, in order. */
  method InitCalendarForMonthView(year: int, month: int, currentDate: Option<Calendar>)
    returns (items: seq<Calendar>)
    ensures |items| == GRID_SIZE
    ensures forall i :: 0 <= i < GRID_SIZE ==> items[i] == GridCell(year, month, currentDate, i)
  {
    var preDiff := MonthViewStartDiff(year, month);
    var monthDayCount := GetMonthDaysCount(year, month);
    var preYear, preMonth, nextYear, nextMonth, preMonthDaysCount;
    if month == 1 {
      preYear, preMonth := year - 1, 12;
      nextYear, nextMonth := year, month + 1;
      preMonthDaysCount := if preDiff == 0 then 0 else GetMonthDaysCount(preYear, preMonth);
    } else if month == 12 {
      preYear, preMonth := year, month - 1;
      nextYear, nextMonth := year + 1, 1;
      preMonthDaysCount := if preDiff == 0 then 0 else GetMonthDaysCount(preYear, preMonth);
    } else {
      preYear, preMonth := year, month - 1;
      nextYear, nextMonth := year, month + 1;
      preMonthDaysCount := if preDiff == 0 then 0 else GetMonthDaysCount(preYear, preMonth);
    }
    ghost var f := Frame(year, month);
    assert f == MonthFrame(preYear, preMonth, nextYear, nextMonth, preDiff, monthDayCount, preMonthDaysCount);
    var nextDay := 1;
    items := [];
    var i := 0;
    while i < GRID_SIZE
      invariant 0 <= i <= GRID_SIZE && |items| == i
      invariant nextDay == if i <= monthDayCount + preDiff then 1 else i - (monthDayCount + preDiff) + 1
      invariant forall j :: 0 <= j < i ==> items[j] == GridCell(year, month, currentDate, j)
    {
      var calendarDate := DateOf(0, 0, 0);
      if i < preDiff {
        calendarDate := calendarDate.(year := preYear, month := preMonth, day := preMonthDaysCount - preDiff + i + 1);
      } else if i >= monthDayCount + preDiff {
        calendarDate := calendarDate.(year := nextYear, month := nextMonth, day := nextDay);
        nextDay := nextDay + 1;
      } else {
        calendarDate := calendarDate.(year := year, month := month, isCurrentMonth := true, day := i - preDiff + 1);
      }
      if Equals(calendarDate, currentDate) {
        calendarDate := calendarDate.(isCurrentDay := true);
      }
      items := items + [calendarDate];
      i := i + 1;
    }
  }

  /** The date of a calendar value, for the day-number lemmas. */
  function AsDate(c: Calendar): Gregorian.Date {
    Gregorian.Date(c.year, c.month, c.day)
  }

  // ----- Properties -----

  /** `isLeapYear` agrees with the leap-year rule and with the length of the year. */
  lemma IsLeapYearGregorian(year: int)
    ensures IsLeapYear(year) <==> Gregorian.GregorianLeap(year)
    ensures IsLeapYear(year) <==> Gregorian.DayNumber(year + 1, 1, 1) - Gregorian.DayNumber(year, 1, 1) == 366
  {
    RemZero(year);
    Multiple400(year);
    assert IsLeapYear(year) <==> Gregorian.GregorianLeap(year);
    Gregorian.YearGap(year);
  }

  lemma Multiple400(y: int)
    ensures y % 400 == 0 ==> y % 4 == 0
  {
    if y % 400 == 0 {
      assert y == 4 * (100 * (y / 400));
    }
  }

  /** A month's length is the gap between its first day and the first day of the next month. */
  lemma MonthDaysIsGap(year: int, month: int)
    requires 1 <= month <= 12
    ensures GetMonthDaysCount(year, month) == Gregorian.DaysInMonth(year, month)
    ensures var f := Frame(year, month);
      Gregorian.DayNumber(f.nextYear, f.nextMonth, 1) - Gregorian.DayNumber(year, month, 1)
      == GetMonthDaysCount(year, month)
  {
    IsLeapYearGregorian(year);
    Gregorian.MonthGap(year, month);
  }

  /** The month before and after: January wraps to December of the year before, and back. */
  lemma FrameNeighbours(year: int, month: int)
    requires 1 <= month <= 12
    ensures var f := Frame(year, month);
      1 <= f.preMonth <= 12 && 1 <= f.nextMonth <= 12
      && 12 * f.preYear + f.preMonth == 12 * year + month - 1
      && 12 * f.nextYear + f.nextMonth == 12 * year + month + 1
  {
  }

  /** From 1583 on, the day of `java.util.Calendar` is the Gregorian day number. */
  lemma CivilDayGregorian(dt: Gregorian.Date)
    requires dt.year >= 1583 && Gregorian.ValidDate(dt)
    ensures CivilDay(dt.year, dt.month, dt.day) == Gregorian.DateNumber(dt)
  {
    LunarCoreHelper.GregorianAfterReform(dt);
    LunarCoreHelper.JdFromDateFormulas(dt);
  }

  /**
   * From 1583 on, the month view is 42 consecutive valid dates starting on the Sunday on or
   * before the first of the month, and exactly the cells of the month are flagged as such.
   */
  lemma GridConsecutive(year: int, month: int, i: int)
    requires year >= 1583 && 1 <= month <= 12 && 0 <= i < GRID_SIZE
    ensures var c := GridDate(year, month, i);
      var first := Gregorian.DayNumber(year, month, 1);
      Gregorian.ValidDate(AsDate(c))
      && Gregorian.DateNumber(AsDate(c)) == first - MonthViewStartDiff(year, month) + i
      && Gregorian.DayOfWeek(first - MonthViewStartDiff(year, month)) == 0
      && (c.isCurrentMonth <==> c.year == year && c.month == month)
  {
    var f := Frame(year, month);
    var first := Gregorian.DayNumber(year, month, 1);
    CivilDayGregorian(Gregorian.Date(year, month, 1));
    SundayStart(first, f.preDiff);
    if i < f.preDiff {
      LeadingCell(year, month, i, f);
    } else if i >= f.monthDays + f.preDiff {
      TrailingCell(year, month, i, f);
    } else {
      MonthCell(year, month, i, f);
    }
  }

  /** The cells before the first of the month end the month before. */
  lemma LeadingCell(year: int, month: int, i: int, f: MonthFrame)
    requires 1 <= month <= 12 && f == Frame(year, month) && 0 <= i < f.preDiff
    ensures var c := GridDate(year, month, i);
      Gregorian.ValidDate(AsDate(c)) && !c.isCurrentMonth && (c.year, c.month) != (year, month)
      && Gregorian.DateNumber(AsDate(c)) == Gregorian.DayNumber(year, month, 1) - f.preDiff + i
  {
    FrameNeighbours(year, month);
    MonthDaysIsGap(f.preYear, f.preMonth);
    FrameGap(year, month, f.preYear, f.preMonth);
    DayLinear(f.preYear, f.preMonth, f.preMonthDays - f.preDiff + i + 1);
  }

  /** The cells after the last of the month start the month after. */
  lemma TrailingCell(year: int, month: int, i: int, f: MonthFrame)
    requires 1 <= month <= 12 && f == Frame(year, month) && f.monthDays + f.preDiff <= i < GRID_SIZE
    ensures var c := GridDate(year, month, i);
      Gregorian.ValidDate(AsDate(c)) && !c.isCurrentMonth && (c.year, c.month) != (year, month)
      && Gregorian.DateNumber(AsDate(c)) == Gregorian.DayNumber(year, month, 1) - f.preDiff + i
  {
    FrameNeighbours(year, month);
    MonthDaysIsGap(year, month);
    FrameNeighbours(f.nextYear, f.nextMonth);
    MonthDaysIsGap(f.nextYear, f.nextMonth);
    DayLinear(f.nextYear, f.nextMonth, i - (f.monthDays + f.preDiff) + 1);
  }

  /** The cells of the month itself. */
  lemma MonthCell(year: int, month: int, i: int, f: MonthFrame)
    requires 1 <= month <= 12 && f == Frame(year, month) && f.preDiff <= i < f.monthDays + f.preDiff
    ensures var c := GridDate(year, month, i);
      Gregorian.ValidDate(AsDate(c)) && c.isCurrentMonth && (c.year, c.month) == (year, month)
      && Gregorian.DateNumber(AsDate(c)) == Gregorian.DayNumber(year, month, 1) - f.preDiff + i
  {
    MonthDaysIsGap(year, month);
    DayLinear(year, month, i - f.preDiff + 1);
  }

  /** Going back by the weekday of a day lands on a Sunday. */
  lemma SundayStart(n: int, w: int)
    requires w == Gregorian.DayOfWeek(n)
    ensures Gregorian.DayOfWeek(n - w) == 0
  {
  }

  /** Within a month, day numbers grow with the day. */
  lemma DayLinear(y: int, m: int, d: int)
    ensures Gregorian.DayNumber(y, m, d) == Gregorian.DayNumber(y, m, 1) + d - 1
  {
  }

  /** The month before `month` ends the day before the first of `month`. */
  lemma FrameGap(year: int, month: int, preYear: int, preMonth: int)
    requires 1 <= month <= 12
    requires preYear == Frame(year, month).preYear && preMonth == Frame(year, month).preMonth
    ensures Gregorian.DayNumber(year, month, 1) - Gregorian.DayNumber(preYear, preMonth, 1)
      == GetMonthDaysCount(preYear, preMonth)
  {
    FrameNeighbours(year, month);
    MonthDaysIsGap(preYear, preMonth);
    var g := Frame(preYear, preMonth);
    assert g.nextYear == year && g.nextMonth == month;
  }

  /** At most one cell is flagged as the current day, from 1583 on. */
  lemma GridCurrentDayUnique(year: int, month: int, currentDate: Option<Calendar>, i: int, j: int)
    requires year >= 1583 && 1 <= month <= 12 && 0 <= i < GRID_SIZE && 0 <= j < GRID_SIZE
    requires GridCell(year, month, currentDate, i).isCurrentDay && GridCell(year, month, currentDate, j).isCurrentDay
    ensures i == j
  {
    GridConsecutive(year, month, i);
    GridConsecutive(year, month, j);
  }

  /** A cell is flagged as the current day exactly when it equals the current date. */
  lemma GridCurrentDay(year: int, month: int, currentDate: Option<Calendar>, i: int)
    ensures GridCell(year, month, currentDate, i).isCurrentDay <==> Equals(GridDate(year, month, i), currentDate)
    ensures Equals(GridCell(year, month, currentDate, i), currentDate) <==> Equals(GridDate(year, month, i), currentDate)
  {
  }

  // ----- The first date of a month-view page -----

  /** The range limits and the current day of `CalendarViewDelegate`. */
  datatype Delegate = Delegate(
    minYear: int, minYearMonth: int, minYearDay: int,
    maxYear: int, maxYearMonth: int, maxYearDay: int,
    currentDay: Calendar)

  /** `isCalendarInRange`: the date lies between the limits, both included. */
  predicate IsCalendarInRange(c: Calendar, dl: Delegate) {
    var cur := CivilDay(c.year, c.month, c.day);
    CivilDay(dl.minYear, dl.minYearMonth, dl.minYearDay) <= cur <= CivilDay(dl.maxYear, dl.maxYearMonth, dl.maxYearDay)
  }

  /** `isMinRangeEdge`: the date lies before the lower limit. */
  predicate IsMinRangeEdge(c: Calendar, dl: Delegate) {
    CivilDay(c.year, c.month, c.day) < CivilDay(dl.minYear, dl.minYearMonth, dl.minYearDay)
  }

  /** `getMinRangeCalendar`/`getMaxRangeCalendar`. */
  function RangeCalendar(year: int, month: int, day: int, dl: Delegate): (c: Calendar)
    ensures (c.year, c.month, c.day) == (year, month, day) && !c.isCurrentMonth
    ensures c.isCurrentDay <==> Equals(c, Some(dl.currentDay))
  {
    var c := DateOf(year, month, day);
    c.(isCurrentDay := Equals(c, Some(dl.currentDay)))
  }

  /** The first of the month shown at page `position`, before clamping. */
  function PageDate(position: int, dl: Delegate): Calendar {
    var k := position + dl.minYearMonth - 1;
    DateOf(JavaDiv(k, 12) + dl.minYear, JavaRem(k, 12) + 1, 1)
  }

  /** `getFirstCalendarFromMonthViewPager`. */
  function FirstCalendarFromMonthViewPager(position: int, dl: Delegate): Calendar {
    var c := PageDate(position, dl);
    var c := if IsCalendarInRange(c, dl) then c
      else if IsMinRangeEdge(c, dl) then RangeCalendar(dl.minYear, dl.minYearMonth, dl.minYearDay, dl)
      else RangeCalendar(dl.maxYear, dl.maxYearMonth, dl.maxYearDay, dl);
    c.(isCurrentMonth := c.year == dl.currentDay.year && c.month == dl.currentDay.month,
       isCurrentDay := Equals(c, Some(dl.currentDay)))
  }

  /** Page `position` shows the month `position` months after the first month of the range. */
  lemma PageDateMonth(position: int, dl: Delegate)
    requires position >= 0 && 1 <= dl.minYearMonth <= 12
    ensures var c := PageDate(position, dl);
      1 <= c.month <= 12 && c.day == 1
      && 12 * c.year + c.month == 12 * dl.minYear + dl.minYearMonth + position
  {
  }

  /** Distinct pages show distinct months. */
  lemma PageDateInjective(p: int, q: int, dl: Delegate)
    requires p >= 0 && q >= 0 && 1 <= dl.minYearMonth <= 12
    requires PageDate(p, dl) == PageDate(q, dl)
    ensures p == q
  {
    PageDateMonth(p, dl);
    PageDateMonth(q, dl);
  }

  /**
   * The page date is kept when it is in range, and otherwise replaced by the nearer limit;
   * with the limits in order the result always lies in the range. The flags follow the
   * current day.
   */
  lemma FirstCalendarInRange(position: int, dl: Delegate)
    ensures var c := FirstCalendarFromMonthViewPager(position, dl);
      var p := PageDate(position, dl);
      (IsCalendarInRange(p, dl) ==> (c.year, c.month, c.day) == (p.year, p.month, p.day))
      && (IsMinRangeEdge(p, dl) ==> (c.year, c.month, c.day) == (dl.minYear, dl.minYearMonth, dl.minYearDay))
      && (!IsCalendarInRange(p, dl) && !IsMinRangeEdge(p, dl) ==> (c.year, c.month, c.day) == (dl.maxYear, dl.maxYearMonth, dl.maxYearDay))
      && (CivilDay(dl.minYear, dl.minYearMonth, dl.minYearDay) <= CivilDay(dl.maxYear, dl.maxYearMonth, dl.maxYearDay)
          ==> IsCalendarInRange(c, dl))
      && (c.isCurrentMonth <==> IsSameMonth(c, dl.currentDay))
      && (c.isCurrentDay <==> Equals(c, Some(dl.currentDay)))
  {
  }
}
