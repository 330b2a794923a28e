/**
 * Which events fall on a date (`EventManager`): calendar dates compared field by field
 * (`OneDate`), the event record the app shows (`OneEvent`), the rule deciding whether an
 * event lies on a date, the filter of a list by that rule, the Julian-day range a
 * year, month, week or day selection queries, and the event type a row's colour column
 * resolves to.
 */
module EventManager {
  import opened Wrappers
  import Gregorian
  import EventTypeManager
  import CalendarUtil

  /** The selection ranges of `getEvents`. */
  const YEAR := 1
  const MONTH := 2
  const WEEK := 3
  const DAY := 4

  /** The answers of `OneDate.compare`. */
  const DATE_AFTER := 0
  const DATE_SAME := 1
  const DATE_BEFORE := 2

  datatype OneDate = OneDate(year: int, month: int, day: int)

  /**
   * The part of a Joda `DateTime` the rules read: the instant in milliseconds, its
   * calendar date and its minute of the day.
   */
  datatype DateTime = DateTime(millis: int, date: OneDate, minuteOfDay: int)

  /** `OneEvent`: the columns of an event instance the app shows. */
  datatype OneEvent = OneEvent(
    id: int,
    eventType: int,
    title: Option<string>,
    description: Option<string>,
    location: Option<string>,
    startTime: DateTime,
    endTime: DateTime,
    allDay: bool)

  /** `OneDate.compare`: year first, then month, then day. */
  function Compare(date1: OneDate, date2: OneDate): int {
    if date1.year > date2.year then DATE_AFTER
    else if date1.year < date2.year then DATE_BEFORE
    else if date1.month > date2.month then DATE_AFTER
    else if date1.month < date2.month then DATE_BEFORE
    else if date1.day > date2.day then DATE_AFTER
    else if date1.day < date2.day then DATE_BEFORE
    else DATE_SAME
  }

  predicate IsEqual(d: OneDate, other: OneDate) {
    d.year == other.year && d.month == other.month && d.day == other.day
  }

  predicate IsEqualOrAfter(d: OneDate, other: OneDate) {
    IsEqual(d, other) || Compare(d, other) == DATE_AFTER
  }

  predicate IsBefore(d: OneDate, other: OneDate) {
    Compare(d, other) == DATE_BEFORE
  }

  predicate IsAfter(d: OneDate, other: OneDate) {
    Compare(d, other) == DATE_AFTER
  }

  /** Lexicographic order on (year, month, day), stated on its own. */
  predicate LexBefore(a: OneDate, b: OneDate) {
    a.year < b.year
    || (a.year == b.year && a.month < b.month)
    || (a.year == b.year && a.month == b.month && a.day < b.day)
  }

  /**
   * `compare` is the lexicographic order: before, same and after mean lexicographically
   * smaller, identical and larger, and swapping the dates swaps before and after.
   */
  lemma CompareIsLexicographic(a: OneDate, b: OneDate)
    ensures Compare(a, b) == DATE_BEFORE <==> LexBefore(a, b)
    ensures Compare(a, b) == DATE_SAME <==> a == b
    ensures Compare(a, b) == DATE_AFTER <==> LexBefore(b, a)
    ensures IsBefore(a, b) <==> IsAfter(b, a)
    ensures IsEqualOrAfter(a, b) <==> !LexBefore(a, b)
    ensures IsEqual(a, b) <==> a == b
  {
  }

  /** The order is transitive. */
  lemma LexBeforeTransitive(a: OneDate, b: OneDate, c: OneDate)
    ensures LexBefore(a, b) && LexBefore(b, c) ==> LexBefore(a, c)
    ensures !LexBefore(a, a)
  {
  }

  function StartDate(e: OneEvent): OneDate { e.startTime.date }
  function EndDate(e: OneEvent): OneDate { e.endTime.date }

  /**
   * `OneEvent.containsDate`: an all-day event covers its start date up to, but not
   * including, its end date; a timed event covers its start date up to its end date,
   * and the end date itself unless the event ends at midnight (an event that starts at
   * the same instant it ends still covers that date).
   */
  function ContainsDate(e: OneEvent, date: OneDate): (r: bool)
    ensures e.allDay ==> (r <==> !LexBefore(date, StartDate(e)) && LexBefore(date, EndDate(e)))
    ensures !e.allDay ==> (r <==>
      !LexBefore(date, StartDate(e))
      && (LexBefore(date, EndDate(e))
          || (date == EndDate(e) && (e.endTime.minuteOfDay != 0 || e.endTime.millis == e.startTime.millis))))
  {
    CompareIsLexicographic(date, StartDate(e));
    CompareIsLexicographic(date, EndDate(e));
    var startDate := StartDate(e);
    var endDate := EndDate(e);
    if e.allDay then IsEqualOrAfter(date, startDate) && IsBefore(date, endDate)
    else if IsEqualOrAfter(date, startDate) then
      if IsBefore(date, endDate) then true
      else if IsEqual(date, endDate) then
        if e.endTime.minuteOfDay == 0 then e.endTime.millis == e.startTime.millis
        else true
      else false
    else false
  }

  /** An event that ends before it starts contains no date; a zero-length timed event contains its one date. */
  lemma ContainsDateEdges(e: OneEvent, date: OneDate)
    ensures LexBefore(EndDate(e), StartDate(e)) ==> !ContainsDate(e, date)
    ensures !e.allDay && e.startTime == e.endTime ==> (ContainsDate(e, date) <==> date == StartDate(e))
    ensures e.allDay && StartDate(e) == EndDate(e) ==> !ContainsDate(e, date)
  {
  }

  /** The events of `events` that lie on `date`, in their order. */
  function EventsOn(events: seq<OneEvent>, date: OneDate): (r: seq<OneEvent>)
    ensures |r| <= |events|
  {
    if events == [] then []
    else
      var last := events[|events| - 1];
      EventsOn(events[..|events| - 1], date) + (if ContainsDate(last, date) then [last] else [])
  }

  /** `EventsOn` keeps exactly the events that contain the date. */
  lemma {:induction false} EventsOnMeaning(events: seq<OneEvent>, date: OneDate)
    ensures forall e :: e in EventsOn(events, date) <==> e in events && ContainsDate(e, date)
  {
    if events != [] {
      var init := events[..|events| - 1];
      var last := events[|events| - 1];
      EventsOnMeaning(init, date);
      assert events == init + [last];
      forall e
        ensures e in EventsOn(events, date) <==> e in events && ContainsDate(e, date)
      {
        assert e in events <==> e in init || e == last;
      }
    }
  }

  /** Filtering a concatenation filters each part. */
  lemma {:induction false} EventsOnAppend(xs: seq<OneEvent>, ys: seq<OneEvent>, date: OneDate)
    ensures EventsOn(xs + ys, date) == EventsOn(xs, date) + EventsOn(ys, date)
    decreases |ys|
  {
    if ys == [] {
      assert xs + ys == xs;
    } else {
      var init := ys[..|ys| - 1];
      EventsOnAppend(xs, init, date);
      assert (xs + ys)[..|xs + ys| - 1] == xs + init;
    }
  }

  /** `getEventsFromDate`: the events that lie on the date, in their order. */
  method GetEventsFromDate(events: seq<OneEvent>, year: int, month: int, date: int) returns (result: seq<OneEvent>)
    ensures result == EventsOn(events, OneDate(year, month, date))
  {
    var day := OneDate(year, month, date);
    result := [];
    for i := 0 to |events|
      invariant result == EventsOn(events[..i], day)
    {
      assert events[..i + 1][..i] == events[..i];
      if ContainsDate(events[i], day) {
        result := result + [events[i]];
      }
    }
    assert events[..|events|] == events;
  }

  // ----- The range of getEvents -----

  /**
   * The Julian days `getEvents` queries for a selection around the date `selected`: the
   * whole year, the whole month, the week from its Sunday to its Saturday, or the day
   * itself; any other selection queries day 0 to day 0.
   */
  function EventsRange(selectRange: int, selected: Gregorian.Date): (int, int) {
    var n := Gregorian.DateNumber(selected);
    if selectRange == YEAR then
      // January 1 of the year, and plusYears(1).minusDays(1) of it
      var start := Gregorian.DayNumber(selected.year, 1, 1);
      (start, Gregorian.DayNumber(selected.year + 1, 1, 1) - 1)
    else if selectRange == MONTH then
      // the first of the month, and plusMonths(1).minusDays(1) of it
      var start := Gregorian.DayNumber(selected.year, selected.month, 1);
      var next := if selected.month == 12 then Gregorian.DayNumber(selected.year + 1, 1, 1)
                  else Gregorian.DayNumber(selected.year, selected.month + 1, 1);
      (start, next - 1)
    else if selectRange == WEEK then
      // back by Joda's getDayOfWeek() % 7, which is 0 on Sunday
      var startDay := n - Gregorian.DayOfWeek(n);
      (startDay, startDay + 7 - 1)
    else if selectRange == DAY then
      (n, n)
    else
      (0, 0)
  }

  /** A year range runs from January 1 for 365 or 366 days and holds the selected date. */
  lemma YearRange(selected: Gregorian.Date)
    requires Gregorian.ValidDate(selected)
    ensures var (s, e) := EventsRange(YEAR, selected);
      var n := Gregorian.DateNumber(selected);
      s == Gregorian.DayNumber(selected.year, 1, 1) && s <= n <= e
      && e - s + 1 == (if Gregorian.GregorianLeap(selected.year) then 366 else 365)
  {
    Gregorian.YearGap(selected.year);
    MonthFirstsGrow(selected.year, selected.month);
    DayWithinMonth(selected);
  }

  /** A month range runs from the first of the month for the length of the month and holds the selected date. */
  lemma MonthRange(selected: Gregorian.Date)
    requires Gregorian.ValidDate(selected)
    ensures var (s, e) := EventsRange(MONTH, selected);
      var n := Gregorian.DateNumber(selected);
      s == Gregorian.DayNumber(selected.year, selected.month, 1) && s <= n <= e
      && e - s + 1 == Gregorian.DaysInMonth(selected.year, selected.month)
  {
    Gregorian.MonthGap(selected.year, selected.month);
    DayWithinMonth(selected);
  }

  /** A week range is the seven days from the Sunday on or before the selected date. */
  lemma WeekRange(selected: Gregorian.Date)
    ensures var (s, e) := EventsRange(WEEK, selected);
      var n := Gregorian.DateNumber(selected);
      e == s + 6 && s <= n <= e && Gregorian.DayOfWeek(s) == 0
  {
    var n := Gregorian.DateNumber(selected);
    CalendarUtil.SundayStart(n, Gregorian.DayOfWeek(n));
  }

  /** A day range is the selected date alone; an unknown selection is day 0 alone. */
  lemma DayRange(selectRange: int, selected: Gregorian.Date)
    ensures selectRange == DAY ==> EventsRange(selectRange, selected) == (Gregorian.DateNumber(selected), Gregorian.DateNumber(selected))
    ensures !(YEAR <= selectRange <= DAY) ==> EventsRange(selectRange, selected) == (0, 0)
  {
  }

  /** A valid date's day number lies between the first and the last of its month. */
  lemma DayWithinMonth(dt: Gregorian.Date)
    requires Gregorian.ValidDate(dt)
    ensures Gregorian.DayNumber(dt.year, dt.month, 1) <= Gregorian.DateNumber(dt)
      < Gregorian.DayNumber(dt.year, dt.month, 1) + Gregorian.DaysInMonth(dt.year, dt.month)
  {
  }

  /**
   * The first of month `m` lies between January 1 of its year and the end of the year,
   * with the whole month before the next January 1.
   */
  lemma {:induction false} MonthFirstsGrow(y: int, m: int)
    requires 1 <= m <= 12
    ensures Gregorian.DayNumber(y, 1, 1) <= Gregorian.DayNumber(y, m, 1)
    ensures Gregorian.DayNumber(y, m, 1) + Gregorian.DaysInMonth(y, m) <= Gregorian.DayNumber(y + 1, 1, 1)
    decreases 12 - m
  {
    Gregorian.MonthGap(y, m);
    if m < 12 {
      MonthFirstsGrow(y, m + 1);
    }
  }

  // ----- The event type of a row -----

  /**
   * The event type `getEventsInRange` gives a row: the colour column's value when it
   * names a type of the table, and the default type when it does not or is null.
   */
  method ResolveEventType(eventColor: Option<int>) returns (eventType: int)
    ensures eventColor.Some? && EventTypeManager.IsKnownId(eventColor.value) ==> eventType == eventColor.value
    ensures eventColor.None? || !EventTypeManager.IsKnownId(eventColor.value) ==> eventType == EventTypeManager.EVENT_TYPE_DEFAULT
  {
    eventType := EventTypeManager.EVENT_TYPE_DEFAULT;
    if eventColor.Some? {
      var temp := eventColor.value;
      for j := 0 to EventTypeManager.APP_EVENT_TYPE_COUNT
        invariant forall k :: 0 <= k < j ==> EventTypeManager.APP_EVENT_TYPES[k].id != temp
      {
        if EventTypeManager.APP_EVENT_TYPES[j].id == temp {
          eventType := temp;
          return;
        }
      }
    }
  }

  /** Every resolved type is one of the table's identifiers. */
  lemma ResolvedTypeIsKnown(eventColor: Option<int>, eventType: int)
    requires eventColor.Some? && EventTypeManager.IsKnownId(eventColor.value) ==> eventType == eventColor.value
    requires eventColor.None? || !EventTypeManager.IsKnownId(eventColor.value) ==> eventType == EventTypeManager.EVENT_TYPE_DEFAULT
    ensures EventTypeManager.IsKnownId(eventType) && 1 <= eventType <= EventTypeManager.APP_EVENT_TYPE_COUNT
  {
    EventTypeManager.TableLayout();
  }
}
