/**
 * Scrolling the agenda list to a day (`AgendaListViewAdapter.getDayPosition`): the
 * first event that touches the day, else the first event after it, else the last item.
 *
 * The day is given by the instants of its start and of the next day's start; the
 * midnight of a date in the device's time zone is a function of the date.
 */
module AgendaListViewAdapter {
  import EM = EventManager

  /**
   * The interval the search compares: an all-day event runs from the midnight of its
   * start date to one millisecond before the midnight of its end date.
   */
  function Bounds(e: EM.OneEvent, midnight: EM.OneDate -> int): (int, int) {
    if e.allDay then (midnight(e.startTime.date), midnight(e.endTime.date) - 1)
    else (e.startTime.millis, e.endTime.millis)
  }

  /** The event starts within the day, or ends strictly inside it. */
  predicate TouchesDay(e: EM.OneEvent, midnight: EM.OneDate -> int, curDay: int, nextDay: int) {
    var (s, t) := Bounds(e, midnight);
    (s >= curDay && s < nextDay) || (t > curDay && t < nextDay)
  }

  /** The search stops at this event: it touches the day or starts at the next day or later. */
  predicate StopsAt(e: EM.OneEvent, midnight: EM.OneDate -> int, curDay: int, nextDay: int) {
    TouchesDay(e, midnight, curDay, nextDay) || nextDay <= Bounds(e, midnight).0
  }

  /**
   * `getDayPosition`: the first index at which the search stops; when it stops nowhere,
   * the last index (-1 for an empty list).
   */
  method GetDayPosition(events: seq<EM.OneEvent>, curDay: int, nextDay: int, midnight: EM.OneDate -> int)
    returns (pos: int)
    ensures -1 <= pos < |events|
    ensures (exists i :: 0 <= i < |events| && StopsAt(events[i], midnight, curDay, nextDay)) ==>
      0 <= pos && StopsAt(events[pos], midnight, curDay, nextDay)
      && forall k :: 0 <= k < pos ==> !StopsAt(events[k], midnight, curDay, nextDay)
    ensures (forall i :: 0 <= i < |events| ==> !StopsAt(events[i], midnight, curDay, nextDay)) ==> pos == |events| - 1
  {
    var nItemCount := |events|;
    for i := 0 to nItemCount
      invariant forall k :: 0 <= k < i ==> !StopsAt(events[k], midnight, curDay, nextDay)
    {
      var event := events[i];
      var startMillis, endMillis;
      if event.allDay {
        startMillis := midnight(event.startTime.date);
        endMillis := midnight(event.endTime.date) - 1;
      } else {
        startMillis := event.startTime.millis;
        endMillis := event.endTime.millis;
      }
      if (startMillis >= curDay && startMillis < nextDay) || (endMillis > curDay && endMillis < nextDay) {
        return i;
      }
      if nextDay <= startMillis {
        return i;
      }
    }
    return nItemCount - 1;
  }

  /**
   * When the answer does not touch the day, it starts on the next day or later, and every
   * event before it started before the day and does not end inside it.
   */
  lemma FirstTouching(events: seq<EM.OneEvent>, midnight: EM.OneDate -> int, curDay: int, nextDay: int, pos: int)
    requires 0 <= pos < |events| && StopsAt(events[pos], midnight, curDay, nextDay)
    requires forall k :: 0 <= k < pos ==> !StopsAt(events[k], midnight, curDay, nextDay)
    requires !TouchesDay(events[pos], midnight, curDay, nextDay)
    ensures Bounds(events[pos], midnight).0 >= nextDay
    ensures forall k :: 0 <= k < pos ==>
      Bounds(events[k], midnight).0 < curDay && (Bounds(events[k], midnight).1 <= curDay || Bounds(events[k], midnight).1 >= nextDay)
  {
    forall k | 0 <= k < pos
      ensures Bounds(events[k], midnight).0 < curDay
    {
      assert !StopsAt(events[k], midnight, curDay, nextDay);
    }
  }

  /**
   * An all-day event ends just before the midnight of its end date: it does not touch
   * the day beginning at that midnight unless it also starts in it.
   */
  lemma AllDayEndExclusive(e: EM.OneEvent, midnight: EM.OneDate -> int, nextDay: int)
    requires e.allDay && midnight(e.startTime.date) < midnight(e.endTime.date)
    ensures !TouchesDay(e, midnight, midnight(e.endTime.date), nextDay)
  {
  }
}
