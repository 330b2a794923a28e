/**
 * The decisions `EditEventHelper` makes on the way to saving an event: which account
 * rights allow editing, whether two models are the same event, the checks that stop a
 * save, the operations that rewrite an event's reminders, and the DURATION column a
 * recurring event stores instead of DTEND.
 */
module EditEventHelper {
  import opened Wrappers
  import opened JavaLang
  import CEM = CalendarEventModel

  /** `Calendars.CAL_ACCESS_READ`. */
  const CAL_ACCESS_READ := 200
  const SECOND_IN_MILLIS := 1000
  const DAY_IN_MILLIS := 86_400_000

  /** Column names of `CalendarContract.Events`. */
  const RRULE := "rrule"
  const DURATION := "duration"
  const DTEND := "dtend"

  // ----- Rights -----

  /** `canModifyCalendar`: contributor access or better, or a calendar not chosen yet. */
  predicate CanModifyCalendar(model: CEM.CalendarEventModel)
    reads model
  {
    model.calendarAccessLevel >= CEM.CAL_ACCESS_CONTRIBUTOR || model.calendarId == -1
  }

  /** `canModifyEvent`: the calendar can be modified and the user organizes the event or guests may modify it. */
  predicate CanModifyEvent(model: CEM.CalendarEventModel)
    reads model
  {
    CanModifyCalendar(model) && (model.isOrganizer || model.guestsCanModify)
  }

  /** `canAddReminders`: read access or better. */
  predicate CanAddReminders(model: CEM.CalendarEventModel)
    reads model
  {
    model.calendarAccessLevel >= CAL_ACCESS_READ
  }

  /**
   * The rights nest: modifying the event needs modifying the calendar, and on a chosen
   * calendar that in turn allows adding reminders. On a calendar not chosen yet the
   * calendar counts as modifiable whatever the access level, so reminders can be
   * refused there.
   */
  lemma RightsNest(model: CEM.CalendarEventModel)
    ensures CanModifyEvent(model) ==> CanModifyCalendar(model)
    ensures CanModifyCalendar(model) && model.calendarId != -1 ==> CanAddReminders(model)
    ensures model.calendarId == -1 ==> CanModifyCalendar(model)
    ensures CanModifyEvent(model) <==> CanModifyCalendar(model) && (model.isOrganizer || model.guestsCanModify)
  {
  }

  /**
   * A cleared model (a new event, organized by the user, no calendar chosen) may be
   * edited and may take reminders, but cannot be saved before a calendar is chosen.
   */
  lemma ClearedModelRights(model: CEM.CalendarEventModel, original: CEM.CalendarEventModel?, modelUnchanged: bool)
    requires model.IsCleared()
    ensures CanModifyEvent(model) && CanAddReminders(model)
    ensures SaveEventCheck(model, original, modelUnchanged) == InvalidModel
  {
    model.ClearedIsInvalidAndEmpty();
  }

  // ----- Identity -----

  /** `isSameEvent`: no original to compare with, or the same calendar and the same event id. */
  predicate IsSameEvent(model: CEM.CalendarEventModel, original: CEM.CalendarEventModel?)
    reads model, original
  {
    original == null || (model.calendarId == original.calendarId && model.id == original.id)
  }

  /** `isFirstEventInSeries`: the instance being edited starts where the series starts. */
  predicate IsFirstEventInSeries(model: CEM.CalendarEventModel, original: CEM.CalendarEventModel)
    reads model, original
  {
    model.originalStart == original.start
  }

  /** Sameness of events is an equivalence on the pair (calendar, id). */
  lemma SameEventEquivalence(a: CEM.CalendarEventModel, b: CEM.CalendarEventModel, c: CEM.CalendarEventModel)
    ensures IsSameEvent(a, a)
    ensures IsSameEvent(a, b) ==> IsSameEvent(b, a)
    ensures IsSameEvent(a, b) && IsSameEvent(b, c) ==> IsSameEvent(a, c)
  {
  }

  // ----- The guards of saveEvent -----

  /** Why `saveEvent` stops, or that it goes on to build the operations. */
  datatype SaveCheck = NullModel | InvalidModel | DifferentEvent | Unchanged | NoOriginal | Proceed

  /**
   * The checks at the top of `saveEvent`, in their order. Whether the model is unchanged
   * since the original is an input: `modelUnchanged` compares every field of the two models.
   */
  function SaveEventCheck(model: CEM.CalendarEventModel?, original: CEM.CalendarEventModel?, modelUnchanged: bool): (r: SaveCheck)
    reads model, original
    ensures r == Proceed <==>
      model != null && model.IsValid() && IsSameEvent(model, original)
      && (original != null ==> !modelUnchanged) && (original == null ==> model.uri.None?)
    ensures r == NullModel <==> model == null
    ensures r == InvalidModel ==> model != null && !model.IsValid()
    ensures r == DifferentEvent ==> original != null && model != null && !IsSameEvent(model, original)
    ensures r == Unchanged ==> original != null && modelUnchanged
    ensures r == NoOriginal ==> original == null && model != null && model.uri.Some?
  {
    if model == null then NullModel
    else if !model.IsValid() then InvalidModel
    else if original != null && !IsSameEvent(model, original) then DifferentEvent
    else if original != null && modelUnchanged then Unchanged
    else if model.uri.Some? && original == null then NoOriginal
    else Proceed
  }

  /**
   * A save that goes ahead on an existing event (one with a uri) always has the
   * original model whose uri the update is addressed to, and a save never goes ahead
   * on a model that is not valid.
   */
  lemma ProceedHasOriginal(model: CEM.CalendarEventModel?, original: CEM.CalendarEventModel?, modelUnchanged: bool)
    requires SaveEventCheck(model, original, modelUnchanged) == Proceed
    ensures model != null && model.calendarId != -1
    ensures model.uri.Some? ==> original != null
  {
  }

  // ----- Reminders -----

  /** Where the reminder operations take the event id from: a known id, or a back reference to an earlier insert. */
  datatype EventRef = EventId(id: int) | BackReference(index: int)

  /** A provider operation on the Reminders table. */
  datatype ReminderOp =
    | DeleteReminders(event: EventRef)
    | InsertReminder(minutes: int, reminderMethod: int, event: EventRef)

  /** `ArrayList.equals` over `ReminderEntry.equals`: the same length and equal entries pairwise. */
  predicate SameReminders(a: seq<CEM.ReminderEntry>, b: seq<CEM.ReminderEntry>) {
    |a| == |b| && forall i :: 0 <= i < |a| ==> CEM.Equals(a[i], b[i])
  }

  /** One insert per reminder, in order, carrying its minutes and method. */
  function Inserts(reminders: seq<CEM.ReminderEntry>, event: EventRef): (ops: seq<ReminderOp>)
    ensures |ops| == |reminders|
    ensures forall i :: 0 <= i < |ops| ==>
      ops[i] == InsertReminder(reminders[i].minutes, reminders[i].reminderMethod, event)
  {
    if reminders == [] then []
    else Inserts(reminders[..|reminders| - 1], event)
         + [InsertReminder(reminders[|reminders| - 1].minutes, reminders[|reminders| - 1].reminderMethod, event)]
  }

  /**
   * `saveReminders` and `saveRemindersWithBackRef`: when the reminders equal the
   * original ones and saving is not forced, nothing is added and the answer is false;
   * otherwise one delete of the event's reminders and then one insert per reminder are
   * appended, and the answer is true.
   */
  method SaveReminders(ops: seq<ReminderOp>, event: EventRef, reminders: seq<CEM.ReminderEntry>,
                       originalReminders: seq<CEM.ReminderEntry>, forceSave: bool)
    returns (saved: bool, newOps: seq<ReminderOp>)
    ensures saved <==> !SameReminders(reminders, originalReminders) || forceSave
    ensures !saved ==> newOps == ops
    ensures saved ==> newOps == ops + [DeleteReminders(event)] + Inserts(reminders, event)
  {
    if SameReminders(reminders, originalReminders) && !forceSave {
      return false, ops;
    }
    newOps := ops + [DeleteReminders(event)];
    for i := 0 to |reminders|
      invariant newOps == ops + [DeleteReminders(event)] + Inserts(reminders[..i], event)
    {
      assert reminders[..i + 1][..i] == reminders[..i];
      var re := reminders[i];
      newOps := newOps + [InsertReminder(re.minutes, re.reminderMethod, event)];
    }
    assert reminders[..|reminders|] == reminders;
    saved := true;
  }

  /**
   * Reminders compared with themselves are never rewritten unless forced; a changed
   * list (another length, or an entry that differs) always is.
   */
  lemma SameRemindersMeaning(a: seq<CEM.ReminderEntry>, b: seq<CEM.ReminderEntry>)
    ensures SameReminders(a, a)
    ensures |a| != |b| ==> !SameReminders(a, b)
    ensures SameReminders(a, b) ==> SameReminders(b, a)
    ensures (exists i :: 0 <= i < |a| && i < |b| && !CEM.Equals(a[i], b[i])) ==> !SameReminders(a, b)
  {
    forall i | 0 <= i < |a| ensures CEM.Equals(a[i], a[i]) {
      CEM.EqualsMeaning(a[i], a[i], a[i]);
    }
    if SameReminders(a, b) {
      forall i | 0 <= i < |a| ensures CEM.Equals(b[i], a[i]) {
        CEM.EqualsMeaning(a[i], b[i], a[i]);
      }
    }
  }

  // ----- The DURATION column of a recurring event -----

  /** A value stored in `ContentValues`. */
  datatype ColumnValue = Null | Text(text: string)

  function TextOrNull(s: Option<string>): ColumnValue {
    if s.Some? then Text(s.value) else Null
  }

  /**
   * The duration `addRecurrenceRule` stores: whole days rounded up for an all-day event
   * and whole seconds rounded down otherwise; when the end lies before the start the
   * model's own duration is kept, or, when that is empty, one day or one hour.
   */
  function DurationFor(start: int, end: int, allDay: bool, duration: Option<string>): Option<string> {
    if end >= start then
      if allDay then Some("P" + IntToString(JavaDiv(end - start + DAY_IN_MILLIS - 1, DAY_IN_MILLIS)) + "D")
      else Some("P" + IntToString(JavaDiv(end - start, SECOND_IN_MILLIS)) + "S")
    else if duration.None? || |duration.value| == 0 then
      Some(if allDay then "P1D" else "P3600S")
    else duration
  }

  /**
   * `addRecurrenceRule`: store the rule and the duration, and null the end time; every
   * other column keeps its value.
   */
  function AddRecurrenceRule(values: map<string, ColumnValue>, model: CEM.CalendarEventModel): (r: map<string, ColumnValue>)
    reads model
    ensures r.Keys == values.Keys + {RRULE, DURATION, DTEND}
    ensures r[RRULE] == TextOrNull(model.rrule) && r[DTEND] == Null
    ensures r[DURATION] == TextOrNull(DurationFor(model.start, model.end, model.allDay, model.duration))
    ensures forall k :: k in values && k !in {RRULE, DURATION, DTEND} ==> r[k] == values[k]
  {
    values[RRULE := TextOrNull(model.rrule)]
          [DURATION := TextOrNull(DurationFor(model.start, model.end, model.allDay, model.duration))]
          [DTEND := Null]
  }

  /** A duration of the form `P<digits>D` or `P<digits>S`, read back. */
  datatype Amount = Amount(count: nat, unit: char)

  function ReadDuration(s: string): Option<Amount> {
    if |s| >= 3 && s[0] == 'P' && (s[|s| - 1] == 'D' || s[|s| - 1] == 'S') && AllDigits(s[1..|s| - 1])
    then Some(Amount(DigitsValue(s[1..|s| - 1]), s[|s| - 1]))
    else None
  }

  /** `"P" + n + unit` reads back as `n` in that unit for every `n >= 0`. */
  lemma ReadWritten(n: int, unit: char)
    requires n >= 0 && (unit == 'D' || unit == 'S')
    ensures ReadDuration("P" + IntToString(n) + [unit]) == Some(Amount(n, unit))
  {
    NatToStringDigits(n);
    var s := "P" + IntToString(n) + [unit];
    assert s[1..|s| - 1] == NatToString(n);
  }

  /**
   * What the duration means: for an all-day event the fewest whole days covering the
   * event, for a timed event its whole seconds; when the end lies before the start, the
   * model's non-empty duration is kept and otherwise one day or 3600 seconds is used.
   */
  lemma DurationMeaning(start: int, end: int, allDay: bool, duration: Option<string>)
    ensures var d := DurationFor(start, end, allDay, duration);
      (end >= start && allDay ==>
         d.Some? && ReadDuration(d.value).Some? && ReadDuration(d.value).value.unit == 'D'
         && ReadDuration(d.value).value.count * DAY_IN_MILLIS - DAY_IN_MILLIS < end - start
            <= ReadDuration(d.value).value.count * DAY_IN_MILLIS)
      && (end >= start && !allDay ==>
         d.Some? && ReadDuration(d.value).Some? && ReadDuration(d.value).value.unit == 'S'
         && ReadDuration(d.value).value.count * SECOND_IN_MILLIS <= end - start
            < ReadDuration(d.value).value.count * SECOND_IN_MILLIS + SECOND_IN_MILLIS)
      && (end < start && (duration.None? || |duration.value| == 0) ==>
         d.Some? && ReadDuration(d.value) == Some(if allDay then Amount(1, 'D') else Amount(3600, 'S')))
      && (end < start && duration.Some? && |duration.value| > 0 ==> d == duration)
  {
    if end >= start {
      if allDay {
        var n := (end - start + DAY_IN_MILLIS - 1) / DAY_IN_MILLIS;
        ReadWritten(n, 'D');
      } else {
        var n := (end - start) / SECOND_IN_MILLIS;
        ReadWritten(n, 'S');
      }
    } else {
      ReadWritten(1, 'D');
      ReadWritten(3600, 'S');
      assert IntToString(1) == "1" && IntToString(3600) == "3600";
      assert "P" + IntToString(1) + ['D'] == "P1D";
      assert "P" + IntToString(3600) + ['S'] == "P3600S";
    }
  }
}
