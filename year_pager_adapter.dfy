/**
 * The year view's pages (`YearPagerAdapter`): one page per year from the minimum to the
 * maximum year, and on each page the number of events that fall in each of its twelve
 * months. An event counts in every month from its start month to the month of its last
 * day; an all-day event's end is exclusive, so its last day is the day before its end.
 */
module YearPagerAdapter {
  import EM = EventManager
  import Gregorian

  /** `DateTime.minusDays(1)` on the date part. */
  function DayBefore(d: EM.OneDate): EM.OneDate {
    if d.day > 1 then EM.OneDate(d.year, d.month, d.day - 1)
    else if d.month > 1 then EM.OneDate(d.year, d.month - 1, Gregorian.DaysInMonth(d.year, d.month - 1))
    else EM.OneDate(d.year - 1, 12, 31)
  }

  function DayNumberOf(d: EM.OneDate): int {
    Gregorian.DayNumber(d.year, d.month, d.day)
  }

  predicate ValidOneDate(d: EM.OneDate) {
    Gregorian.ValidDate(Gregorian.Date(d.year, d.month, d.day))
  }

  /** The day before a valid date is a valid date whose day number is one less. */
  lemma DayBeforeMeaning(d: EM.OneDate)
    requires ValidOneDate(d)
    ensures ValidOneDate(DayBefore(d))
    ensures DayNumberOf(DayBefore(d)) == DayNumberOf(d) - 1
  {
    if d.day == 1 && d.month > 1 {
      DayBeforeFirstOfMonth(d.year, d.month);
    } else if d.day == 1 {
      DayBeforeNewYear(d.year);
    }
  }

  lemma DayBeforeFirstOfMonth(year: int, month: int)
    requires 1 < month <= 12
    ensures var p := Gregorian.DaysInMonth(year, month - 1);
      Gregorian.DayNumber(year, month - 1, p) == Gregorian.DayNumber(year, month, 1) - 1
  {
    Gregorian.MonthGap(year, month - 1);
    Gregorian.DayShift(year, month - 1, Gregorian.DaysInMonth(year, month - 1));
  }

  lemma DayBeforeNewYear(year: int)
    ensures Gregorian.DayNumber(year - 1, 12, 31) == Gregorian.DayNumber(year, 1, 1) - 1
  {
    Gregorian.MonthGap(year - 1, 12);
    Gregorian.DayShift(year - 1, 12, 31);
  }

  /** The date of the event's last day, as the count reads it. */
  function LastDate(e: EM.OneEvent): EM.OneDate {
    if e.allDay then DayBefore(e.endTime.date) else e.endTime.date
  }

  /** Both dates of the event name a month of the year. */
  predicate MonthsValid(e: EM.OneEvent) {
    1 <= e.startTime.date.month <= 12 && 1 <= e.endTime.date.month <= 12
  }

  /** The zero-based months `[startMonth, endMonth]` an event counts in on the page of `year`. */
  function MonthSpan(year: int, e: EM.OneEvent): (span: (int, int))
    requires MonthsValid(e)
    ensures 0 <= span.0 <= 11 && 0 <= span.1 <= 11
  {
    var last := LastDate(e);
    var startMonth := if e.startTime.date.year < year then 0 else e.startTime.date.month - 1;
    var endMonth := if last.year > year then 11 else last.month - 1;
    (startMonth, endMonth)
  }

  predicate InSpan(year: int, e: EM.OneEvent, l: int)
    requires MonthsValid(e)
  {
    MonthSpan(year, e).0 <= l <= MonthSpan(year, e).1
  }

  predicate AllMonthsValid(events: seq<EM.OneEvent>) {
    forall k :: 0 <= k < |events| ==> MonthsValid(events[k])
  }

  /** The count shown for zero-based month `l`: the events whose span holds it. */
  function Count(year: int, events: seq<EM.OneEvent>, l: int): (n: nat)
    requires AllMonthsValid(events)
    ensures n <= |events|
  {
    if |events| == 0 then 0
    else Count(year, events[..|events| - 1], l) + (if InSpan(year, events[|events| - 1], l) then 1 else 0)
  }

  /** Month `(y1, m1)` is not after month `(y2, m2)`. */
  predicate MonthNotAfter(y1: int, m1: int, y2: int, m2: int) {
    y1 < y2 || (y1 == y2 && m1 <= m2)
  }

  /** The event runs through month `month` (one-based) of `year`: it starts no later and its last day is no earlier. */
  predicate Covers(year: int, e: EM.OneEvent, month: int) {
    MonthNotAfter(e.startTime.date.year, e.startTime.date.month, year, month)
    && MonthNotAfter(year, month, LastDate(e).year, LastDate(e).month)
  }

  /** The number of events that run through a month, counted independently of the page's spans. */
  function CoverCount(year: int, events: seq<EM.OneEvent>, month: int): nat {
    if |events| == 0 then 0
    else CoverCount(year, events[1..], month) + (if Covers(year, events[0], month) then 1 else 0)
  }

  /**
   * For an event that overlaps the year, the page counts it in a month exactly when the
   * event runs through that month.
   */
  lemma InSpanIffCovers(year: int, e: EM.OneEvent, l: int)
    requires MonthsValid(e) && 0 <= l < 12
    requires e.startTime.date.year <= year <= LastDate(e).year
    ensures InSpan(year, e, l) <==> Covers(year, e, l + 1)
  {
  }

  predicate OverlapsYear(year: int, e: EM.OneEvent) {
    e.startTime.date.year <= year <= LastDate(e).year
  }

  /** Count splits over a concatenation. */
  lemma {:induction false} CountAppend(year: int, a: seq<EM.OneEvent>, b: seq<EM.OneEvent>, l: int)
    requires AllMonthsValid(a) && AllMonthsValid(b)
    ensures AllMonthsValid(a + b)
    ensures Count(year, a + b, l) == Count(year, a, l) + Count(year, b, l)
    decreases |b|
  {
    if |b| == 0 {
      assert a + b == a;
    } else {
      var b' := b[..|b| - 1];
      assert (a + b)[..|a + b| - 1] == a + b';
      CountAppend(year, a, b', l);
    }
  }

  /**
   * When every event overlaps the year, the count the page shows for each month is the
   * number of events that run through that month.
   */
  lemma {:induction false} CountMeaning(year: int, events: seq<EM.OneEvent>, l: int)
    requires AllMonthsValid(events) && 0 <= l < 12
    requires forall k :: 0 <= k < |events| ==> OverlapsYear(year, events[k])
    ensures Count(year, events, l) == CoverCount(year, events, l + 1)
  {
    if |events| > 0 {
      assert events == [events[0]] + events[1..];
      CountAppend(year, [events[0]], events[1..], l);
      assert [events[0]][..0] == [];
      InSpanIffCovers(year, events[0], l);
      CountMeaning(year, events[1..], l);
    }
  }

  /** Counts only grow as events are added: each month's count over a prefix is at most its count over the whole list. */
  lemma CountGrows(year: int, events: seq<EM.OneEvent>, k: nat, l: int)
    requires AllMonthsValid(events) && k <= |events|
    ensures Count(year, events[..k], l) <= Count(year, events, l)
  {
    assert events == events[..k] + events[k..];
    CountAppend(year, events[..k], events[k..], l);
  }

  /** An all-day event ending on the first of a month does not count in that month. */
  lemma AllDayEndExclusive(year: int, e: EM.OneEvent)
    requires MonthsValid(e) && e.allDay && e.endTime.date.year == year && e.endTime.date.day == 1
    requires e.endTime.date.month > 1 && e.startTime.date.year == year && e.startTime.date.month < e.endTime.date.month
    ensures !InSpan(year, e, e.endTime.date.month - 1)
    ensures InSpan(year, e, e.endTime.date.month - 2)
  {
  }

  class YearPager {
    const minYear: int
    const maxYear: int

    constructor(minYear: int, maxYear: int)
      ensures this.minYear == minYear && this.maxYear == maxYear
    {
      this.minYear := minYear;
      this.maxYear := maxYear;
    }

    /** `getItemCount`: one page per year from the minimum to the maximum. */
    function ItemCount(): int {
      maxYear - minYear + 1
    }

    /** The year shown on a page. */
    function YearOf(position: int): int {
      minYear + position
    }

    /** The pages are exactly the years from the minimum to the maximum, one page each. */
    lemma PagesAreYears(position: int)
      ensures 0 <= position < ItemCount() <==> minYear <= YearOf(position) <= maxYear
      ensures forall p :: YearOf(p) == YearOf(position) ==> p == position
    {
    }

    /**
     * The count behind a page: for each of the twelve months, the number of events whose
     * span covers it.
     */
    method CountEventsPerMonth(year: int, events: seq<EM.OneEvent>) returns (counts: array<int>)
      requires AllMonthsValid(events)
      ensures fresh(counts) && counts.Length == 12
      ensures forall l :: 0 <= l < 12 ==> counts[l] == Count(year, events, l)
    {
      counts := new int[12](_ => 0);
      var size := |events|;
      for k := 0 to size
        invariant forall j :: 0 <= j < 12 ==> counts[j] == Count(year, events[..k], j)
      {
        var event := events[k];
        var endDate := if event.allDay then DayBefore(event.endTime.date) else event.endTime.date;
        var startMonth, endMonth;
        if event.startTime.date.year < year {
          startMonth := 0;
        } else {
          startMonth := event.startTime.date.month - 1;
        }
        if endDate.year > year {
          endMonth := 11;
        } else {
          endMonth := endDate.month - 1;
        }
        assert (startMonth, endMonth) == MonthSpan(year, event);
        var l := startMonth;
        while l <= endMonth
          invariant startMonth <= l && (l <= endMonth + 1 || l == startMonth)
          invariant forall j :: 0 <= j < 12 ==>
            counts[j] == Count(year, events[..k], j) + (if startMonth <= j < l then 1 else 0)
          decreases endMonth - l
        {
          counts[l] := counts[l] + 1;
          l := l + 1;
        }
        assert events[..k + 1][..k] == events[..k];
      }
      assert events[..size] == events;
    }
  }
}
