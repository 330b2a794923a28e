/**
 * The integer part of `LunarCoreHelper`: conversion between a date and its Julian Day
 * Number. Dates from 1582-10-15 on are Gregorian; earlier dates are Julian-calendar dates,
 * as in the hybrid calendar of `java.util.GregorianCalendar`. The source works on Java
 * `int`s with truncating division, and the model keeps that division.
 */
module LunarCoreHelper {
  import opened JavaLang
  import Gregorian

  /** The first day number of the Gregorian calendar, 1582-10-15. */
  const GREGORIAN_START: int := 2299161

  /** `jdFromDate(dd, mm, yy)`: the Gregorian formula, or the Julian one below the reform. */
  function JdFromDate(dd: int, mm: int, yy: int): int {
    var a := JavaDiv(14 - mm, 12);
    var y := yy + 4800 - a;
    var m := mm + 12 * a - 3;
    var c := dd + JavaDiv(153 * m + 2, 5) + 365 * y + JavaDiv(y, 4);
    var jd := c - JavaDiv(y, 100) + JavaDiv(y, 400) - 32045;
    if jd < 2299161 then c - 32083 else jd
  }

  /** `jdToDate(jd)`: the array `{day, month, year}`, as a triple in that order. */
  function JdToDate(jd: int): (int, int, int) {
    if jd > 2299160 then
      var a := jd + 32044;
      var b := JavaDiv(4 * a + 3, 146097);
      JdToDateTail(b, a - JavaDiv(b * 146097, 4))
    else
      JdToDateTail(0, jd + 32082)
  }

  /** The part of `jdToDate` after the century split, shared by both calendars. */
  function JdToDateTail(b: int, c: int): (int, int, int) {
    var d := JavaDiv(4 * c + 3, 1461);
    var e := c - JavaDiv(1461 * d, 4);
    var m := JavaDiv(5 * e + 2, 153);
    var day := e - JavaDiv(153 * m + 2, 5) + 1;
    var month := m + 3 - 12 * JavaDiv(m, 10);
    var year := b * 100 + d - 4800 + JavaDiv(m, 10);
    (day, month, year)
  }

  // ----- The Julian calendar -----

  predicate JulianLeap(y: int) { y % 4 == 0 }

  function JulianDaysInMonth(y: int, m: int): int {
    if m == 2 then (if JulianLeap(y) then 29 else 28)
    else if m == 4 || m == 6 || m == 9 || m == 11 then 30
    else 31
  }

  predicate JulianValid(dt: Gregorian.Date) {
    1 <= dt.month <= 12 && 1 <= dt.day <= JulianDaysInMonth(dt.year, dt.month)
  }

  /** The Julian Day Number of a Julian-calendar date. */
  function JulianNumber(dt: Gregorian.Date): int {
    var a := (14 - dt.month) / 12;
    var yy := dt.year + 4800 - a;
    dt.day + Gregorian.MarchOffset(dt.month + 12 * a - 3) + 365 * yy + yy / 4 - 32083
  }

  /** The Julian-calendar date of a day number. */
  function JulianFromNumber(n: int): Gregorian.Date {
    Gregorian.DateInCentury(0, n + 32082)
  }

  // ----- The hybrid calendar -----

  predicate OnOrAfterReform(dt: Gregorian.Date) {
    dt.year > 1582 || (dt.year == 1582 && (dt.month > 10 || (dt.month == 10 && dt.day >= 15)))
  }

  predicate BeforeReform(dt: Gregorian.Date) {
    dt.year < 1582 || (dt.year == 1582 && (dt.month < 10 || (dt.month == 10 && dt.day <= 4)))
  }

  /** A date of the hybrid calendar in the Common Era: Julian up to 1582-10-04, Gregorian from 1582-10-15. */
  predicate HybridDate(dt: Gregorian.Date) {
    dt.year >= 1
    && ((OnOrAfterReform(dt) && Gregorian.ValidDate(dt)) || (BeforeReform(dt) && JulianValid(dt)))
  }

  function AsTriple(dt: Gregorian.Date): (int, int, int) {
    (dt.day, dt.month, dt.year)
  }

  // ----- Properties -----

  /** In the Common Era the Java formula is the Gregorian day number, with the Julian one below the reform. */
  lemma JdFromDateFormulas(dt: Gregorian.Date)
    requires dt.year >= 1 && 1 <= dt.month <= 12
    ensures JdFromDate(dt.day, dt.month, dt.year)
      == if Gregorian.DateNumber(dt) < GREGORIAN_START then JulianNumber(dt) else Gregorian.DateNumber(dt)
  {
    var a := (14 - dt.month) / 12;
    assert JavaDiv(14 - dt.month, 12) == a;
    assert a == 0 || a == 1;
  }

  /** Gregorian dates from the reform on have day numbers from 2299161 on. */
  lemma GregorianAfterReform(dt: Gregorian.Date)
    requires dt.year >= 1 && OnOrAfterReform(dt) && Gregorian.ValidDate(dt)
    ensures Gregorian.DateNumber(dt) >= GREGORIAN_START
  {
    var a := (14 - dt.month) / 12;
    var yy := dt.year + 4800 - a;
    Gregorian.MarchOffsets();
    if yy >= 6383 {
      YearDaysMonotone(6383, yy);
    }
  }

  /** Julian dates before the reform have day numbers below 2299161 on both day lines. */
  lemma JulianBeforeReform(dt: Gregorian.Date)
    requires dt.year >= 1 && BeforeReform(dt) && JulianValid(dt)
    ensures Gregorian.DateNumber(dt) < GREGORIAN_START
    ensures JulianNumber(dt) < GREGORIAN_START
  {
    var a := (14 - dt.month) / 12;
    var yy := dt.year + 4800 - a;
    Gregorian.MarchOffsets();
    if yy <= 6381 {
      YearDaysMonotone(yy, 6381);
    }
  }

  lemma {:induction false} YearDaysMonotone(y1: int, y2: int)
    requires y1 <= y2
    ensures Gregorian.YearDays(y1) <= Gregorian.YearDays(y2)
    decreases y2 - y1
  {
    if y1 < y2 {
      Gregorian.YearDaysStep(y2 - 1);
      YearDaysMonotone(y1, y2 - 1);
    }
  }

  /** For a non-negative day count every division of the tail has non-negative operands. */
  lemma TailIsJava(b: int, c: int)
    requires c >= 0
    ensures JdToDateTail(b, c) == AsTriple(Gregorian.DateInCentury(b, c))
  {
    var d := (4 * c + 3) / 1461;
    var e := c - (1461 * d) / 4;
    assert e >= 0;
  }

  /** Above 2299160 the conversion back is the Gregorian inverse. */
  lemma JdToDateGregorian(jd: int)
    requires jd > 2299160
    ensures JdToDate(jd) == AsTriple(Gregorian.FromDayNumber(jd))
  {
    var a := jd + 32044;
    var b := (4 * a + 3) / 146097;
    var c := a - (146097 * b) / 4;
    JdToDateGregorianTail(jd);
  }

  lemma JdToDateGregorianTail(jd: int)
    requires jd > 2299160
    ensures var a := jd + 32044;
      var b := (4 * a + 3) / 146097;
      JdToDate(jd) == AsTriple(Gregorian.DateInCentury(b, a - (146097 * b) / 4))
  {
    var a := jd + 32044;
    var b := (4 * a + 3) / 146097;
    var c := a - (146097 * b) / 4;
    assert JavaDiv(4 * a + 3, 146097) == b;
    assert JavaDiv(b * 146097, 4) == (146097 * b) / 4;
    assert c >= 0;
    TailIsJava(b, c);
  }

  /** From -32082 up to 2299160 the conversion back is the Julian inverse. */
  lemma JdToDateJulian(jd: int)
    requires -32082 <= jd <= 2299160
    ensures JdToDate(jd) == AsTriple(JulianFromNumber(jd))
  {
    TailIsJava(0, jd + 32082);
  }

  /** The year of the March-based calendar and the day within it, for a Julian day number. */
  lemma JulianParts(n: int) returns (k: int, e: int)
    ensures 0 <= e <= 365 && (e == 365 ==> k % 4 == 3)
    ensures JulianFromNumber(n) == Gregorian.PartsDate(0, k, e)
    ensures n == 365 * k + k / 4 + e - 32082
  {
    var c := n + 32082;
    k := (4 * c + 3) / 1461;
    e := c - (1461 * k) / 4;
  }

  /** The Julian inverse undoes the Julian day number. */
  lemma JulianRoundTrip(dt: Gregorian.Date)
    requires JulianValid(dt)
    ensures JulianFromNumber(JulianNumber(dt)) == dt
  {
    var yy, e := JulianDateParts(dt);
    JulianYearSplit(yy, e);
  }

  /** The March-based year and day of year of a valid Julian date. */
  lemma JulianDateParts(dt: Gregorian.Date) returns (yy: int, e: int)
    requires JulianValid(dt)
    ensures 0 <= e <= 365 && (e == 365 ==> yy % 4 == 3)
    ensures JulianNumber(dt) == 365 * yy + yy / 4 + e - 32082
    ensures dt == Gregorian.PartsDate(0, yy, e)
  {
    var a := (14 - dt.month) / 12;
    assert a == 0 || a == 1;
    yy := dt.year + 4800 - a;
    var mi := dt.month + 12 * a - 3;
    e := dt.day - 1 + Gregorian.MarchOffset(mi);
    Gregorian.MarchOffsets();
    Gregorian.MarchMonthOf(mi, dt.day, e);
  }

  /** The two divisions of the Julian inverse recover the year and the day of the year. */
  lemma JulianYearSplit(yy: int, e: int)
    requires 0 <= e <= 365 && (e == 365 ==> yy % 4 == 3)
    ensures JulianFromNumber(365 * yy + yy / 4 + e - 32082) == Gregorian.PartsDate(0, yy, e)
  {
    assert (4 * (365 * yy + yy / 4 + e) + 3) / 1461 == yy;
    assert 365 * yy + yy / 4 + e - (1461 * yy) / 4 == e;
  }

  /** The Julian inverse yields a valid Julian date. */
  lemma JulianFromNumberValid(n: int)
    ensures JulianValid(JulianFromNumber(n))
  {
    var k, e := JulianParts(n);
    JulianPartsValid(k, e);
  }

  lemma JulianPartsValid(k: int, e: int)
    requires 0 <= e <= 365 && (e == 365 ==> k % 4 == 3)
    ensures JulianValid(Gregorian.PartsDate(0, k, e))
  {
    Gregorian.MarchDayBounds(e);
    var mi := (5 * e + 2) / 153;
    Gregorian.MarchOffsets();
    assert mi == 11 ==> k - 4800 + mi / 10 == k - 4799;
  }

  /**
   * `jdToDate` inverts `jdFromDate` on every date of the hybrid calendar from year 1 on.
   */
  lemma RoundTrip(dt: Gregorian.Date)
    requires HybridDate(dt)
    ensures JdToDate(JdFromDate(dt.day, dt.month, dt.year)) == AsTriple(dt)
  {
    JdFromDateFormulas(dt);
    if OnOrAfterReform(dt) && Gregorian.ValidDate(dt) {
      GregorianAfterReform(dt);
      JdToDateGregorian(Gregorian.DateNumber(dt));
      Gregorian.FromDayNumberOfDate(dt);
    } else {
      JulianBeforeReform(dt);
      JulianNumberLowerBound(dt);
      JdToDateJulian(JulianNumber(dt));
      JulianRoundTrip(dt);
    }
  }

  lemma JulianNumberLowerBound(dt: Gregorian.Date)
    requires dt.year >= 1 && JulianValid(dt)
    ensures JulianNumber(dt) >= -32082
  {
  }

  /** Consecutive days of a month of the hybrid calendar have consecutive day numbers. */
  lemma Consecutive(dt: Gregorian.Date)
    requires HybridDate(dt) && HybridDate(Gregorian.Date(dt.year, dt.month, dt.day + 1))
    ensures JdFromDate(dt.day + 1, dt.month, dt.year) == JdFromDate(dt.day, dt.month, dt.year) + 1
  {
    var next := Gregorian.Date(dt.year, dt.month, dt.day + 1);
    JdFromDateFormulas(dt);
    JdFromDateFormulas(next);
    if OnOrAfterReform(dt) && Gregorian.ValidDate(dt) {
      GregorianAfterReform(dt);
      GregorianAfterReform(next);
    } else {
      JulianBeforeReform(dt);
      JulianBeforeReform(next);
    }
  }

  /** From -32082 on, `jdToDate` gives a month in 1..12 and a day in 1..31. */
  lemma JdToDateRange(jd: int)
    requires jd >= -32082
    ensures 1 <= JdToDate(jd).1 <= 12 && 1 <= JdToDate(jd).0 <= 31
  {
    if jd > 2299160 {
      JdToDateGregorian(jd);
      Gregorian.DateOfDayNumber(jd);
    } else {
      JdToDateJulian(jd);
      JulianFromNumberValid(jd);
    }
  }
}
