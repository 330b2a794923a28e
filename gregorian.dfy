/**
 * The proleptic Gregorian calendar as day numbers: the arithmetic that the Joda `DateTime`
 * and `java.util.Calendar` values of the app perform (plusDays, minusDays, day of week,
 * Julian day of a date). Day numbers are Julian Day Numbers, so 2000-01-01 is 2451545.
 * Division here is Dafny's floor division, which makes every year, negative ones included,
 * behave alike.
 */
module Gregorian {

  datatype Date = Date(year: int, month: int, day: int)

  /** Days from March 1 to the first of the `mi`-th month of a year that starts in March. */
  function MarchOffset(mi: int): int {
    (153 * mi + 2) / 5
  }

  /** Days from the epoch of the formula to March 1 of the March-based year `yy`. */
  function YearDays(yy: int): int {
    365 * yy + yy / 4 - yy / 100 + yy / 400
  }

  /** The day number of `d` `m` `y`; months outside 1..12 are not dates. */
  function DayNumber(y: int, m: int, d: int): int {
    var a := (14 - m) / 12;
    d + MarchOffset(m + 12 * a - 3) + YearDays(y + 4800 - a) - 32045
  }

  function DateNumber(dt: Date): int {
    DayNumber(dt.year, dt.month, dt.day)
  }

  /** The date of a day number. */
  function FromDayNumber(n: int): Date {
    var a := n + 32044;
    var b := (4 * a + 3) / 146097;
    DateInCentury(b, a - (146097 * b) / 4)
  }

  /** The date `c` days after March 1 of the first year of century `b` (counted from 4801 BCE). */
  function DateInCentury(b: int, c: int): Date {
    var k := (4 * c + 3) / 1461;
    var e := c - (1461 * k) / 4;
    var mi := (5 * e + 2) / 153;
    Date(100 * b + k - 4800 + mi / 10, mi + 3 - 12 * (mi / 10), e - MarchOffset(mi) + 1)
  }

  /** The leap-year rule of the Gregorian calendar. */
  predicate GregorianLeap(y: int) {
    y % 4 == 0 && (y % 100 != 0 || y % 400 == 0)
  }

  /** The number of days in a month of the Gregorian calendar. */
  function DaysInMonth(y: int, m: int): (n: int)
    ensures 28 <= n <= 31
  {
    if m == 2 then (if GregorianLeap(y) then 29 else 28)
    else if m == 4 || m == 6 || m == 9 || m == 11 then 30
    else 31
  }

  predicate ValidDate(dt: Date) {
    1 <= dt.month <= 12 && 1 <= dt.day <= DaysInMonth(dt.year, dt.month)
  }

  /** 0 for Sunday up to 6 for Saturday. */
  function DayOfWeek(n: int): (w: int)
    ensures 0 <= w < 7
  {
    (n + 1) % 7
  }

  function NextDate(dt: Date): Date {
    FromDayNumber(DateNumber(dt) + 1)
  }

  function PrevDate(dt: Date): Date {
    FromDayNumber(DateNumber(dt) - 1)
  }

  lemma MarchOffsets()
    ensures MarchOffset(0) == 0 && MarchOffset(1) == 31 && MarchOffset(2) == 61
    ensures MarchOffset(3) == 92 && MarchOffset(4) == 122 && MarchOffset(5) == 153
    ensures MarchOffset(6) == 184 && MarchOffset(7) == 214 && MarchOffset(8) == 245
    ensures MarchOffset(9) == 275 && MarchOffset(10) == 306 && MarchOffset(11) == 337
    ensures MarchOffset(12) == 367
  {
  }

  /** A March-based year is 366 days long exactly when the February it ends with is a leap one. */
  lemma YearDaysStep(yy: int)
    ensures YearDays(yy + 1) - YearDays(yy) == if GregorianLeap(yy - 4799) then 366 else 365
  {
    QuotientStep4(yy);
    QuotientStep100(yy);
    QuotientStep400(yy);
  }

  lemma QuotientStep4(yy: int)
    ensures (yy + 1) / 4 - yy / 4 == if (yy - 4799) % 4 == 0 then 1 else 0
  {
  }

  lemma QuotientStep100(yy: int)
    ensures (yy + 1) / 100 - yy / 100 == if (yy - 4799) % 100 == 0 then 1 else 0
  {
  }

  lemma QuotientStep400(yy: int)
    ensures (yy + 1) / 400 - yy / 400 == if (yy - 4799) % 400 == 0 then 1 else 0
  {
  }

  /** The month lengths are the gaps between the day numbers of consecutive firsts of months. */
  lemma MonthGap(y: int, m: int)
    requires 1 <= m <= 12
    ensures m < 12 ==> DayNumber(y, m + 1, 1) - DayNumber(y, m, 1) == DaysInMonth(y, m)
    ensures m == 12 ==> DayNumber(y + 1, 1, 1) - DayNumber(y, 12, 1) == DaysInMonth(y, m)
  {
    if m == 1 || m == 2 {
      WinterMonthGap(y, m);
    } else if m == 12 {
      DecemberGap(y);
    } else {
      SpringToFallMonthGap(y, m);
    }
  }

  /** Within a month, the day number grows with the day. */
  lemma DayShift(y: int, m: int, d: int)
    ensures DayNumber(y, m, d) == DayNumber(y, m, 1) + d - 1
  {
  }

  lemma WinterMonthGap(y: int, m: int)
    requires m == 1 || m == 2
    ensures DayNumber(y, m + 1, 1) - DayNumber(y, m, 1) == DaysInMonth(y, m)
  {
    if m == 2 {
      FebruaryGap(y);
    } else {
      JanuaryGap(y);
    }
  }

  lemma JanuaryGap(y: int)
    ensures DayNumber(y, 2, 1) - DayNumber(y, 1, 1) == 31
  {
    FirstOfJanuary(y);
    FirstOfFebruary(y);
  }

  lemma FebruaryGap(y: int)
    ensures DayNumber(y, 3, 1) - DayNumber(y, 2, 1) == if GregorianLeap(y) then 29 else 28
  {
    FirstOfFebruary(y);
    FirstOfMarch(y);
    YearDaysStep(y + 4799);
  }

  lemma FirstOfJanuary(y: int)
    ensures DayNumber(y, 1, 1) == 307 + YearDays(y + 4799) - 32045
  {
    MarchOffsets();
  }

  lemma FirstOfFebruary(y: int)
    ensures DayNumber(y, 2, 1) == 338 + YearDays(y + 4799) - 32045
  {
    MarchOffsets();
  }

  lemma FirstOfMarch(y: int)
    ensures DayNumber(y, 3, 1) == 1 + YearDays(y + 4800) - 32045
  {
  }

  lemma DecemberGap(y: int)
    ensures DayNumber(y + 1, 1, 1) - DayNumber(y, 12, 1) == 31
  {
    assert DayNumber(y + 1, 1, 1) == 1 + MarchOffset(10) + YearDays(y + 4800) - 32045;
    assert DayNumber(y, 12, 1) == 1 + MarchOffset(9) + YearDays(y + 4800) - 32045;
    MarchGap(9);
  }

  lemma SpringToFallMonthGap(y: int, m: int)
    requires 3 <= m <= 11
    ensures DayNumber(y, m + 1, 1) - DayNumber(y, m, 1) == DaysInMonth(y, m)
  {
    assert (14 - m) / 12 == 0 && (14 - (m + 1)) / 12 == 0;
    MarchGap(m - 3);
  }

  /** The gaps between consecutive March-based month offsets: 30 days for April, June, September and November. */
  lemma MarchGap(mi: int)
    requires 0 <= mi < 11
    ensures MarchOffset(mi + 1) - MarchOffset(mi) == if mi == 1 || mi == 3 || mi == 6 || mi == 8 then 30 else 31
    ensures mi == 10 ==> MarchOffset(0) == 0 && MarchOffset(11) == 337
  {
    MarchOffsets();
  }

  /** The year length is 366 days exactly in leap years. */
  lemma YearGap(y: int)
    ensures DayNumber(y + 1, 1, 1) - DayNumber(y, 1, 1) == if GregorianLeap(y) then 366 else 365
  {
    MarchOffsets();
    assert DayNumber(y + 1, 1, 1) - DayNumber(y, 1, 1) == YearDays(y + 4800) - YearDays(y + 4799);
    YearDaysStep(y + 4799);
  }

  /**
   * The day number with century `b`, year of century `k` and day `e` of the March-based
   * year, and the date it stands for.
   */
  function PartsNumber(b: int, k: int, e: int): int {
    36524 * b + b / 4 + 365 * k + k / 4 + e - 32044
  }

  function PartsDate(b: int, k: int, e: int): Date {
    var mi := (5 * e + 2) / 153;
    Date(100 * b + k - 4800 + mi / 10, mi + 3 - 12 * (mi / 10), e - MarchOffset(mi) + 1)
  }

  /** The parts the inverse can meet: a 366th day only at the end of a leap year. */
  predicate Parts(b: int, k: int, e: int) {
    0 <= k < 100 && 0 <= e <= 365 && (e == 365 ==> k % 4 == 3 && (k == 99 ==> b % 4 == 3))
  }

  /** Every date of the calendar comes back from its day number. */
  lemma FromDayNumberOfDate(dt: Date)
    requires ValidDate(dt)
    ensures FromDayNumber(DateNumber(dt)) == dt
  {
    var b, k, e := DateParts(dt);
    FromParts(b, k, e);
  }

  /** Every day number is the number of a date of the calendar. */
  lemma DateOfDayNumber(n: int)
    ensures ValidDate(FromDayNumber(n))
    ensures DateNumber(FromDayNumber(n)) == n
  {
    var b, k, e := NumberParts(n);
    FromParts(b, k, e);
    DateOfParts(b, k, e);
  }

  /** Distinct dates have distinct day numbers. */
  lemma DateNumberInjective(d1: Date, d2: Date)
    requires ValidDate(d1) && ValidDate(d2) && DateNumber(d1) == DateNumber(d2)
    ensures d1 == d2
  {
    FromDayNumberOfDate(d1);
    FromDayNumberOfDate(d2);
  }

  /** The inverse applied to a day number given by its parts. */
  lemma FromParts(b: int, k: int, e: int)
    requires Parts(b, k, e)
    ensures FromDayNumber(PartsNumber(b, k, e)) == PartsDate(b, k, e)
  {
    InverseCentury(b, k, e);
    InverseYear(b, k, e);
  }

  /** The first step of the inverse: the century and the day of the century. */
  lemma InverseCentury(b: int, k: int, e: int)
    requires Parts(b, k, e)
    ensures FromDayNumber(PartsNumber(b, k, e)) == DateInCentury(b, 365 * k + k / 4 + e)
  {
    CenturyOf(b, k, e, PartsNumber(b, k, e) + 32044);
  }

  /** The second step of the inverse: the year of the century and the day of the year. */
  lemma InverseYear(b: int, k: int, e: int)
    requires Parts(b, k, e)
    ensures DateInCentury(b, 365 * k + k / 4 + e) == PartsDate(b, k, e)
  {
    YearOfCentury(k, e, 365 * k + k / 4 + e);
  }

  /** The century division of the inverse recovers the century and the day of the century. */
  lemma CenturyOf(b: int, k: int, e: int, a: int)
    requires Parts(b, k, e) && a == 36524 * b + b / 4 + 365 * k + k / 4 + e
    ensures (4 * a + 3) / 146097 == b && a - (146097 * b) / 4 == 365 * k + k / 4 + e
  {
  }

  /** The year division of the inverse recovers the year of the century and the day of the year. */
  lemma YearOfCentury(k: int, e: int, c: int)
    requires 0 <= k < 100 && 0 <= e <= 365 && (e == 365 ==> k % 4 == 3) && c == 365 * k + k / 4 + e
    ensures (4 * c + 3) / 1461 == k && c - (1461 * k) / 4 == e
  {
  }

  /** The parts of the day number of a valid date. */
  lemma DateParts(dt: Date) returns (b: int, k: int, e: int)
    requires ValidDate(dt)
    ensures Parts(b, k, e) && DateNumber(dt) == PartsNumber(b, k, e) && dt == PartsDate(b, k, e)
  {
    var y, m, d := dt.year, dt.month, dt.day;
    var a := (14 - m) / 12;
    MarchMonth(m);
    var yy := y + 4800 - a;
    var mi := m + 12 * a - 3;
    e := d - 1 + MarchOffset(mi);
    b := yy / 100;
    k := yy % 100;
    MarchMonthLength(y, mi);
    assert 0 <= e <= 365 && (e == 365 ==> mi == 11 && d == 29) by {
      MarchOffsets();
    }
    assert Parts(b, k, e) by {
      CenturyDigits(yy);
      if e == 365 {
        LeapDigits(y, b, k);
      }
    }
    NumberOfDigits(y, m, d);
    assert dt == PartsDate(b, k, e) by {
      MarchMonthOf(mi, d, e);
      assert yy == 100 * b + k by {
        CenturyDigits(yy);
      }
    }
  }

  /** The day number of a date, written with the century and year digits of its March-based year. */
  lemma NumberOfDigits(y: int, m: int, d: int)
    ensures var a := (14 - m) / 12; var yy := y + 4800 - a;
      DayNumber(y, m, d) == PartsNumber(yy / 100, yy % 100, d - 1 + MarchOffset(m + 12 * a - 3))
  {
    var yy := y + 4800 - (14 - m) / 12;
    CenturyDigits(yy);
    assert YearDays(yy) == 36524 * (yy / 100) + (yy / 100) / 4 + 365 * (yy % 100) + (yy % 100) / 4;
  }

  /** The March-based index of a month, and the year shift of January and February. */
  lemma MarchMonth(m: int)
    requires 1 <= m <= 12
    ensures var a := (14 - m) / 12; var mi := m + 12 * a - 3;
      (a == 0 || a == 1) && 0 <= mi < 12 && mi / 10 == a && mi + 3 - 12 * (mi / 10) == m
  {
  }

  lemma CenturyDigits(yy: int)
    ensures yy / 4 == 25 * (yy / 100) + (yy % 100) / 4
    ensures yy / 400 == (yy / 100) / 4
    ensures yy == 100 * (yy / 100) + yy % 100
  {
  }

  lemma LeapDigits(y: int, b: int, k: int)
    requires 0 <= k < 100 && y == 100 * b + k - 4799 && GregorianLeap(y)
    ensures k % 4 == 3 && (k == 99 ==> b % 4 == 3)
  {
    assert k == 4 * (y / 4 - 25 * b + 1199) + 3;
    if k == 99 {
      assert y == 100 * (b - 47);
      assert b == 4 * (y / 400 + 12) - 1;
    }
  }

  /** The month division of the inverse recovers the March-based month. */
  lemma MarchMonthOf(mi: int, d: int, e: int)
    requires 0 <= mi < 12 && 1 <= d && e == d - 1 + MarchOffset(mi)
    requires d <= (if mi == 11 then 29 else MarchOffset(mi + 1) - MarchOffset(mi))
    ensures (5 * e + 2) / 153 == mi
  {
    MarchOffsets();
  }

  /** The parts of any day number, as the inverse computes them. */
  lemma NumberParts(n: int) returns (b: int, k: int, e: int)
    ensures Parts(b, k, e) && n == PartsNumber(b, k, e)
  {
    var a := n + 32044;
    b := (4 * a + 3) / 146097;
    var c := a - (146097 * b) / 4;
    k := (4 * c + 3) / 1461;
    e := c - (1461 * k) / 4;
  }

  /** The date given by parts is valid and has the day number of the parts. */
  lemma DateOfParts(b: int, k: int, e: int)
    requires Parts(b, k, e)
    ensures ValidDate(PartsDate(b, k, e)) && DateNumber(PartsDate(b, k, e)) == PartsNumber(b, k, e)
  {
    var mi := (5 * e + 2) / 153;
    MarchDayBounds(e);
    DayNumberOfParts(b, k, mi, e - MarchOffset(mi) + 1);
    ValidOfParts(b, k, e);
  }

  lemma ValidOfParts(b: int, k: int, e: int)
    requires Parts(b, k, e)
    ensures ValidDate(PartsDate(b, k, e))
  {
    var mi := (5 * e + 2) / 153;
    var y := 100 * b + k - 4800 + mi / 10;
    MarchDayBounds(e);
    MarchMonthLength(y, mi);
    if mi == 11 {
      assert y == 100 * b + k - 4799;
      if e == 365 {
        LeapOfParts(b, k);
      }
    }
  }

  /** The length of the month with March-based index `mi`. */
  lemma MarchMonthLength(y: int, mi: int)
    requires 0 <= mi < 12
    ensures var m := mi + 3 - 12 * (mi / 10);
      1 <= m <= 12
      && DaysInMonth(y, m) == if mi == 11 then (if GregorianLeap(y) then 29 else 28) else MarchOffset(mi + 1) - MarchOffset(mi)
  {
    MarchOffsets();
  }

  /** The March-based month of a day of year, and the bound on the day within it. */
  lemma MarchDayBounds(e: int)
    requires 0 <= e <= 365
    ensures var mi := (5 * e + 2) / 153;
      0 <= mi < 12 && 1 <= e - MarchOffset(mi) + 1
      && e - MarchOffset(mi) + 1 <= (if mi == 11 then (if e == 365 then 29 else 28) else MarchOffset(mi + 1) - MarchOffset(mi))
  {
    MarchOffsets();
  }

  lemma LeapOfParts(b: int, k: int)
    requires 0 <= k < 100 && k % 4 == 3 && (k == 99 ==> b % 4 == 3)
    ensures GregorianLeap(100 * b + k - 4799)
  {
    var y := 100 * b + k - 4799;
    assert y == 4 * (25 * b + k / 4 - 1199);
    if k == 99 {
      assert y == 400 * (b / 4 - 11);
    } else {
      assert y == 100 * (b - 48) + (k + 1) && 0 < k + 1 < 100;
    }
  }

  /** The day number of a date given by its March-based parts. */
  lemma DayNumberOfParts(b: int, k: int, mi: int, d: int)
    requires 0 <= k < 100 && 0 <= mi < 12
    ensures DayNumber(100 * b + k - 4800 + mi / 10, mi + 3 - 12 * (mi / 10), d)
      == 36524 * b + b / 4 + 365 * k + k / 4 + (d - 1 + MarchOffset(mi)) - 32044
  {
    var m := mi + 3 - 12 * (mi / 10);
    assert (14 - m) / 12 == mi / 10;
    CenturyDigits(100 * b + k);
    assert (100 * b + k) / 100 == b && (100 * b + k) % 100 == k;
  }
}
