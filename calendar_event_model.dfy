/**
 * The editable event (`CalendarEventModel`): the fields the editor fills in, reset by
 * `clear`, checked by `isValid` and `isEmpty`, and its reminder list, which
 * `normalizeReminders` sorts and rids of duplicates. A reminder (`ReminderEntry`) is a
 * number of minutes before the event and a delivery method.
 */
module CalendarEventModel {
  import opened Wrappers
  import opened JavaLang

  /** `Reminders.METHOD_DEFAULT` and `Reminders.METHOD_ALERT` of the calendar provider. */
  const METHOD_DEFAULT := 0
  const METHOD_ALERT := 1
  /** `Calendars.CAL_ACCESS_CONTRIBUTOR` and `Events.STATUS_CONFIRMED`. */
  const CAL_ACCESS_CONTRIBUTOR := 500
  const STATUS_CONFIRMED := 1
  /** `EventTypeManager.EVENT_TYPE_DEFAULT`. */
  const EVENT_TYPE_DEFAULT := 1

  datatype ReminderEntry = ReminderEntry(minutes: int, reminderMethod: int)

  /**
   * `ReminderEntry.equals`: the same minutes, and either the same method or the default
   * method against the alert method (the device delivers a default reminder as an alert).
   */
  predicate Equals(e: ReminderEntry, re: ReminderEntry) {
    re.minutes == e.minutes
    && (re.reminderMethod == e.reminderMethod
        || (re.reminderMethod == METHOD_DEFAULT && e.reminderMethod == METHOD_ALERT)
        || (re.reminderMethod == METHOD_ALERT && e.reminderMethod == METHOD_DEFAULT))
  }

  /** `ReminderEntry.compareTo`: more minutes first, then the smaller method first. */
  function CompareTo(e: ReminderEntry, re: ReminderEntry): int {
    if re.minutes != e.minutes then re.minutes - e.minutes
    else if re.reminderMethod != e.reminderMethod then e.reminderMethod - re.reminderMethod
    else 0
  }

  /** The method as `equals` sees it: the default method counts as an alert. */
  function DeliveredAs(m: int): int {
    if m == METHOD_DEFAULT then METHOD_ALERT else m
  }

  /** `e` may stand before `f` in a list that `Collections.sort` ordered by `compareTo`. */
  predicate Le(e: ReminderEntry, f: ReminderEntry) {
    CompareTo(e, f) <= 0
  }

  predicate Sorted(s: seq<ReminderEntry>) {
    forall i, j :: 0 <= i < j < |s| ==> Le(s[i], s[j])
  }

  // ----- ReminderEntry properties -----

  /**
   * Equality of reminders is an equivalence: the same minutes and the same delivered
   * method.
   */
  lemma EqualsMeaning(a: ReminderEntry, b: ReminderEntry, c: ReminderEntry)
    ensures Equals(a, b) <==> a.minutes == b.minutes && DeliveredAs(a.reminderMethod) == DeliveredAs(b.reminderMethod)
    ensures Equals(a, a)
    ensures Equals(a, b) ==> Equals(b, a)
    ensures Equals(a, b) && Equals(b, c) ==> Equals(a, c)
  {
  }

  /**
   * `compareTo` is negative exactly when the first reminder has more minutes, or the same
   * minutes and a smaller method; it is antisymmetric and 0 only for identical reminders.
   */
  lemma CompareToMeaning(a: ReminderEntry, b: ReminderEntry)
    ensures CompareTo(a, b) < 0 <==> a.minutes > b.minutes || (a.minutes == b.minutes && a.reminderMethod < b.reminderMethod)
    ensures CompareTo(a, b) == -CompareTo(b, a)
    ensures CompareTo(a, b) == 0 <==> a == b
  {
  }

  /** The order `compareTo` induces is total and transitive. */
  lemma LeTotalOrder(a: ReminderEntry, b: ReminderEntry, c: ReminderEntry)
    ensures Le(a, b) || Le(b, a)
    ensures Le(a, b) && Le(b, a) ==> a == b
    ensures Le(a, b) && Le(b, c) ==> Le(a, c)
  {
  }

  // ----- Sorting -----

  /** Insert `x` into `s` before the first entry it precedes. */
  function Insert(x: ReminderEntry, s: seq<ReminderEntry>): (r: seq<ReminderEntry>)
    ensures multiset(r) == multiset(s) + multiset{x}
  {
    if s == [] then [x]
    else if Le(x, s[0]) then [x] + s
    else
      assert s == [s[0]] + s[1..];
      [s[0]] + Insert(x, s[1..])
  }

  /** Inserting into a sorted list gives a sorted list. */
  lemma {:induction false} InsertSorted(x: ReminderEntry, s: seq<ReminderEntry>)
    requires Sorted(s)
    ensures Sorted(Insert(x, s))
  {
    if s != [] && !Le(x, s[0]) {
      InsertSorted(x, s[1..]);
      var rest := Insert(x, s[1..]);
      var r := Insert(x, s);
      assert r == [s[0]] + rest;
      forall j | 0 < j < |r|
        ensures Le(r[0], r[j])
      {
        assert r[j] == rest[j - 1] && rest[j - 1] in multiset(rest);
        assert rest[j - 1] == x || rest[j - 1] in multiset(s[1..]);
        if rest[j - 1] != x {
          assert rest[j - 1] in s[1..];
        }
      }
    }
  }

  /**
   * The list after `Collections.sort(mReminders)`: ascending in the order `compareTo`
   * defines (see `SortedPermutationUnique` for why any correct sort gives this list).
   */
  function Sort(s: seq<ReminderEntry>): (r: seq<ReminderEntry>)
    ensures Sorted(r) && multiset(r) == multiset(s)
  {
    if s == [] then []
    else
      assert s == [s[0]] + s[1..];
      InsertSorted(s[0], Sort(s[1..]));
      Insert(s[0], Sort(s[1..]))
  }

  /**
   * `compareTo` is a total order in which only identical reminders tie, so a list has
   * exactly one sorted rearrangement.
   */
  lemma {:induction false} SortedPermutationUnique(a: seq<ReminderEntry>, b: seq<ReminderEntry>)
    requires Sorted(a) && Sorted(b) && multiset(a) == multiset(b)
    ensures a == b
    decreases |a|
  {
    if a == [] {
      assert |multiset(b)| == 0;
    } else {
      assert b != [] by { assert a[0] in multiset(b); }
      SortedHeadFirst(a, b[0]);
      SortedHeadFirst(b, a[0]);
      LeTotalOrder(a[0], b[0], b[0]);
      MultisetTail(a);
      MultisetTail(b);
      SortedPermutationUnique(a[1..], b[1..]);
      assert a == [a[0]] + a[1..] && b == [b[0]] + b[1..];
    }
  }

  /** The first entry of a sorted list stands before every entry of it. */
  lemma SortedHeadFirst(a: seq<ReminderEntry>, x: ReminderEntry)
    requires Sorted(a) && x in multiset(a)
    ensures Le(a[0], x)
  {
    var i :| 0 <= i < |a| && a[i] == x;
    if i > 0 {
      assert Le(a[0], a[i]);
    }
  }

  lemma MultisetTail(a: seq<ReminderEntry>)
    requires a != []
    ensures multiset(a[1..]) == multiset(a) - multiset{a[0]}
  {
    assert a == [a[0]] + a[1..];
  }

  // ----- Removing duplicates -----

  /**
   * The entries from index `t` on that the dedup walk keeps: an entry is dropped when it
   * equals the entry just before it in the sorted list.
   */
  function Kept(l: seq<ReminderEntry>, t: nat): (r: seq<ReminderEntry>)
    requires 1 <= t <= |l|
    decreases |l| - t
  {
    if t == |l| then []
    else (if Equals(l[t], l[t - 1]) then [] else [l[t]]) + Kept(l, t + 1)
  }

  /** The list the dedup walk leaves behind: the first entry, then the kept ones. */
  function Dedup(l: seq<ReminderEntry>): (r: seq<ReminderEntry>) {
    if l == [] then [] else [l[0]] + Kept(l, 1)
  }

  /** Every kept entry comes from `l[t..]`. */
  lemma {:induction false} KeptFrom(l: seq<ReminderEntry>, t: nat)
    requires 1 <= t <= |l|
    ensures forall y :: y in Kept(l, t) ==> y in l[t..]
    decreases |l| - t
  {
    if t < |l| {
      KeptFrom(l, t + 1);
      assert l[t..] == [l[t]] + l[t + 1..];
    }
  }

  /** The first kept entry, if any, is an `l[k]` unequal to `l[k - 1]`, with `l[k - 1]` equal to `l[t - 1]`. */
  lemma {:induction false} KeptHead(l: seq<ReminderEntry>, t: nat)
    requires 1 <= t <= |l|
    ensures |Kept(l, t)| > 0 ==> exists k :: t <= k < |l| && Kept(l, t)[0] == l[k] && Equals(l[t - 1], l[k - 1]) && !Equals(l[k - 1], l[k])
    decreases |l| - t
  {
    if t < |l| {
      KeptHead(l, t + 1);
      if Equals(l[t], l[t - 1]) && |Kept(l, t + 1)| > 0 {
        var k :| t + 1 <= k < |l| && Kept(l, t + 1)[0] == l[k] && Equals(l[t], l[k - 1]) && !Equals(l[k - 1], l[k]);
        assert Kept(l, t)[0] == l[k];
      } else if !Equals(l[t], l[t - 1]) {
        assert Kept(l, t)[0] == l[t];
      }
    }
  }

  /** No two neighbours in `Kept(l, t)` are equal. */
  lemma {:induction false} KeptNoAdjacent(l: seq<ReminderEntry>, t: nat)
    requires 1 <= t <= |l|
    ensures forall i :: 0 <= i < |Kept(l, t)| - 1 ==> !Equals(Kept(l, t)[i], Kept(l, t)[i + 1])
    decreases |l| - t
  {
    if t < |l| {
      KeptNoAdjacent(l, t + 1);
      var rest := Kept(l, t + 1);
      if !Equals(l[t], l[t - 1]) && |rest| > 0 {
        KeptHead(l, t + 1);
        var k :| t + 1 <= k < |l| && rest[0] == l[k] && Equals(l[t], l[k - 1]) && !Equals(l[k - 1], l[k]);
        EqualsMeaning(l[t], l[k - 1], l[k]);
        assert !Equals(l[t], rest[0]);
        assert Kept(l, t) == [l[t]] + rest;
      }
    }
  }

  /** After the walk no two neighbouring reminders are equal. */
  lemma DedupNoAdjacentEqual(l: seq<ReminderEntry>)
    ensures forall i :: 0 <= i < |Dedup(l)| - 1 ==> !Equals(Dedup(l)[i], Dedup(l)[i + 1])
  {
    if l != [] {
      KeptNoAdjacent(l, 1);
      var rest := Kept(l, 1);
      if |rest| > 0 {
        KeptHead(l, 1);
        var k :| 1 <= k < |l| && rest[0] == l[k] && Equals(l[0], l[k - 1]) && !Equals(l[k - 1], l[k]);
        EqualsMeaning(l[0], l[k - 1], l[k]);
      }
    }
  }

  /** Each dropped entry equals one that stays: for `l[..t]`'s last entry, one at or before it is kept. */
  lemma {:induction false} DedupCovers(l: seq<ReminderEntry>, t: nat)
    requires t < |l|
    ensures exists y :: y in Dedup(l) && Equals(l[t], y)
  {
    if t == 0 {
      assert l[0] in Dedup(l);
    } else if !Equals(l[t], l[t - 1]) {
      KeptSuffix(l, 1, t);
      assert l[t] in Dedup(l);
    } else {
      DedupCovers(l, t - 1);
      var y :| y in Dedup(l) && Equals(l[t - 1], y);
      EqualsMeaning(l[t], l[t - 1], y);
    }
  }

  /** `Kept(l, s)` contains `l[t]` when `l[t]` is not equal to its predecessor. */
  lemma {:induction false} KeptSuffix(l: seq<ReminderEntry>, s: nat, t: nat)
    requires 1 <= s <= t < |l| && !Equals(l[t], l[t - 1])
    ensures l[t] in Kept(l, s)
    decreases t - s
  {
    if s < t {
      KeptSuffix(l, s + 1, t);
    }
  }

  /** The walk keeps the order of a sorted list and only drops entries equal to a kept one. */
  lemma DedupSortedCover(l: seq<ReminderEntry>)
    requires Sorted(l)
    ensures Sorted(Dedup(l))
    ensures forall y :: y in Dedup(l) ==> y in l
    ensures forall x :: x in l ==> exists y :: y in Dedup(l) && Equals(x, y)
  {
    if l != [] {
      KeptSorted(l, 1);
      KeptFrom(l, 1);
      var d := Dedup(l);
      assert d == [l[0]] + Kept(l, 1);
      forall j | 0 < j < |d|
        ensures Le(d[0], d[j])
      {
        assert d[j] in Kept(l, 1);
        assert d[j] in l[1..];
      }
    }
    forall x | x in l
      ensures exists y :: y in Dedup(l) && Equals(x, y)
    {
      var t :| 0 <= t < |l| && l[t] == x;
      DedupCovers(l, t);
    }
  }

  lemma {:induction false} KeptSorted(l: seq<ReminderEntry>, t: nat)
    requires 1 <= t <= |l| && Sorted(l)
    ensures Sorted(Kept(l, t))
    decreases |l| - t
  {
    if t < |l| {
      KeptSorted(l, t + 1);
      KeptFrom(l, t + 1);
      var rest := Kept(l, t + 1);
      if !Equals(l[t], l[t - 1]) {
        var r := Kept(l, t);
        assert r == [l[t]] + rest;
        forall j | 0 < j < |r|
          ensures Le(r[0], r[j])
        {
          assert r[j] == rest[j - 1] && rest[j - 1] in rest;
        }
      }
    }
  }

  // ----- The event -----

  class CalendarEventModel {
    var uri: Option<string>
    var id: int
    var calendarId: int
    var ownerAccount: Option<string>
    var title: Option<string>
    var location: Option<string>
    var description: Option<string>
    var rrule: Option<string>
    var isOrganizer: bool
    var isFirstEventInSeries: bool
    var originalStart: int
    var start: int
    var originalEnd: int
    var end: int
    var duration: Option<string>
    var timezone: Option<string>
    var allDay: bool
    var hasAlarm: bool
    var guestsCanModify: bool
    var accessLevel: int
    var eventStatus: int
    var calendarAccessLevel: int
    var reminders: seq<ReminderEntry>
    var calendarColor: int
    var calendarColorInitialized: bool
    var eventColor: int
    var eventColorInitialized: bool
    var eventType: int

    /** The field values a freshly cleared event holds. */
    predicate IsCleared()
      reads this
    {
      uri.None? && id == -1 && calendarId == -1 && ownerAccount.None?
      && title.None? && location.None? && description.None? && rrule.None?
      && isOrganizer && isFirstEventInSeries
      && originalStart == -1 && start == -1 && originalEnd == -1 && end == -1
      && duration.None? && timezone.None? && !allDay && !hasAlarm && !guestsCanModify
      && accessLevel == 0 && eventStatus == STATUS_CONFIRMED && calendarAccessLevel == CAL_ACCESS_CONTRIBUTOR
      && reminders == []
      && calendarColor == -1 && !calendarColorInitialized && eventColor == -1 && !eventColorInitialized
    }

    /** A cleared event is not valid and is empty. */
    lemma ClearedIsInvalidAndEmpty()
      requires IsCleared()
      ensures !IsValid() && IsEmpty()
    {
    }

    /** `new CalendarEventModel()`: cleared, except for the default time zone it is given. */
    constructor(defaultTimezone: string)
      ensures uri.None? && id == -1 && calendarId == -1 && ownerAccount.None? && title.None? && description.None?
      ensures reminders == [] && timezone == Some(defaultTimezone) && eventType == EVENT_TYPE_DEFAULT
      ensures calendarColor == -1 && !calendarColorInitialized && eventColor == -1 && !eventColorInitialized
      ensures !IsValid() && IsEmpty()
    {
      uri, id, calendarId, ownerAccount := None, -1, -1, None;
      title, location, description, rrule := None, None, None, None;
      isOrganizer, isFirstEventInSeries := true, true;
      originalStart, start, originalEnd, end := -1, -1, -1, -1;
      duration, timezone := None, Some(defaultTimezone);
      allDay, hasAlarm, guestsCanModify := false, false, false;
      accessLevel, eventStatus, calendarAccessLevel := 0, STATUS_CONFIRMED, CAL_ACCESS_CONTRIBUTOR;
      reminders := [];
      calendarColor, calendarColorInitialized, eventColor, eventColorInitialized := -1, false, -1, false;
      eventType := EVENT_TYPE_DEFAULT;
    }

    /** `isValid`: the event names a calendar and an owner account. */
    function IsValid(): (r: bool)
      reads this
      ensures r <==> calendarId != -1 && ownerAccount.Some? && |ownerAccount.value| > 0
    {
      if calendarId == -1 then false
      else if ownerAccount.None? || ownerAccount.value == "" then false
      else true
    }

    /** `isEmpty`: neither the title nor the description has a character above a space. */
    function IsEmpty(): (r: bool)
      reads this
      ensures r <==> Blank(title) && Blank(description)
    {
      BlankTrim(title);
      BlankTrim(description);
      if title.Some? && |Trim(title.value)| > 0 then false
      else if description.Some? && |Trim(description.value)| > 0 then false
      else true
    }

    /** `clear`: every modelled field back to its cleared value; the event type stays. */
    method Clear()
      modifies this
      ensures IsCleared() && eventType == old(eventType)
    {
      ClearIdentity();
      ClearTexts();
      ClearTimes();
      ClearColours();
    }

    /** The identity part of `clear`, and the reminder list. */
    method ClearIdentity()
      modifies this`uri, this`id, this`calendarId, this`ownerAccount, this`isOrganizer, this`isFirstEventInSeries, this`reminders
      ensures uri.None? && id == -1 && calendarId == -1 && ownerAccount.None? && isOrganizer && isFirstEventInSeries && reminders == []
    {
      uri, id, calendarId, ownerAccount := None, -1, -1, None;
      isOrganizer, isFirstEventInSeries := true, true;
      reminders := [];
    }

    /** The text part of `clear`. */
    method ClearTexts()
      modifies this`title, this`location, this`description, this`rrule, this`duration, this`timezone
      ensures title.None? && location.None? && description.None? && rrule.None? && duration.None? && timezone.None?
    {
      title, location, description, rrule := None, None, None, None;
      duration, timezone := None, None;
    }

    /** The time and access part of `clear`. */
    method ClearTimes()
      modifies this`originalStart, this`start, this`originalEnd, this`end, this`allDay, this`hasAlarm, this`guestsCanModify, this`accessLevel, this`eventStatus, this`calendarAccessLevel
      ensures originalStart == -1 && start == -1 && originalEnd == -1 && end == -1 && !allDay && !hasAlarm && !guestsCanModify
      ensures accessLevel == 0 && eventStatus == STATUS_CONFIRMED && calendarAccessLevel == CAL_ACCESS_CONTRIBUTOR
    {
      originalStart, start, originalEnd, end := -1, -1, -1, -1;
      allDay, hasAlarm, guestsCanModify := false, false, false;
      accessLevel, eventStatus, calendarAccessLevel := 0, STATUS_CONFIRMED, CAL_ACCESS_CONTRIBUTOR;
    }

    /** The colour part of `clear`. */
    method ClearColours()
      modifies this`calendarColor, this`calendarColorInitialized, this`eventColor, this`eventColorInitialized
      ensures calendarColor == -1 && !calendarColorInitialized && eventColor == -1 && !eventColorInitialized
    {
      calendarColor, calendarColorInitialized, eventColor, eventColorInitialized := -1, false, -1, false;
    }

    /** `setCalendarColor`: store the colour and mark it as set. */
    method SetCalendarColor(color: int)
      modifies this`calendarColor, this`calendarColorInitialized
      ensures calendarColor == color && calendarColorInitialized
      ensures eventColor == old(eventColor) && eventColorInitialized == old(eventColorInitialized)
      ensures reminders == old(reminders) && calendarId == old(calendarId)
    {
      calendarColor := color;
      calendarColorInitialized := true;
    }

    /** `setEventColor`: store the colour and mark it as set. */
    method SetEventColor(color: int)
      modifies this`eventColor, this`eventColorInitialized
      ensures eventColor == color && eventColorInitialized
      ensures calendarColor == old(calendarColor) && calendarColorInitialized == old(calendarColorInitialized)
      ensures reminders == old(reminders) && calendarId == old(calendarId)
    {
      eventColor := color;
      eventColorInitialized := true;
    }

    /**
     * `normalizeReminders`: sort the reminders, then walk from the end to the front and
     * drop every reminder equal to the one before it. Always answers true; a list of at
     * most one reminder is left alone.
     */
    method NormalizeReminders() returns (r: bool)
      modifies this`reminders
      ensures r
      ensures |old(reminders)| <= 1 ==> reminders == old(reminders)
      ensures |old(reminders)| > 1 ==> reminders == Dedup(Sort(old(reminders)))
      ensures Sorted(reminders)
      ensures forall i :: 0 <= i < |reminders| - 1 ==> !Equals(reminders[i], reminders[i + 1])
      ensures forall y :: y in reminders ==> y in old(reminders)
      ensures forall x :: x in old(reminders) ==> exists y :: y in reminders && Equals(x, y)
    {
      if |reminders| <= 1 {
        if |reminders| == 1 {
          assert Equals(reminders[0], reminders[0]);
        }
        return true;
      }
      ghost var original := reminders;
      reminders := Sort(reminders);
      var l := reminders;
      DropRepeats();
      DedupNoAdjacentEqual(l);
      DedupSortedCover(l);
      forall y | y in reminders
        ensures y in original
      {
        assert y in multiset(l);
      }
      forall x | x in original
        ensures exists y :: y in reminders && Equals(x, y)
      {
        assert x in multiset(l);
        assert x in l;
      }
      return true;
    }

    /**
     * The walk of `normalizeReminders`: from the second-to-last reminder down to the
     * first, remove the reminder after the current one when it equals the current one
     * as it stood before the walk.
     */
    method DropRepeats()
      requires |reminders| >= 1
      modifies this`reminders
      ensures reminders == Dedup(old(reminders))
    {
      ghost var l := reminders;
      var prev := reminders[|reminders| - 1];
      var i := |reminders| - 2;
      while i >= 0
        invariant -1 <= i <= |l| - 2
        invariant reminders == l[..i + 2] + Kept(l, i + 2)
        invariant prev == l[i + 1]
        decreases i + 1
      {
        var cur := reminders[i];
        assert reminders[i] == l[i];
        if Equals(prev, cur) {
          assert Kept(l, i + 1) == Kept(l, i + 2);
          assert l[..i + 2] == l[..i + 1] + [l[i + 1]];
          reminders := reminders[..i + 1] + reminders[i + 2..];
          assert reminders[..i + 1] == l[..i + 1];
        } else {
          assert Kept(l, i + 1) == [l[i + 1]] + Kept(l, i + 2);
          assert l[..i + 2] == l[..i + 1] + [l[i + 1]];
        }
        prev := cur;
        i := i - 1;
      }
      assert l[..1] == [l[0]];
    }
  }

  /** `TextUtils.isEmpty(s.trim())` read on an optional string: absent, or only characters up to a space. */
  predicate Blank(s: Option<string>) {
    s.None? || forall i :: 0 <= i < |s.value| ==> s.value[i] <= ' '
  }

  lemma BlankTrim(s: Option<string>)
    ensures Blank(s) <==> s.None? || |Trim(s.value)| == 0
  {
    if s.Some? {
      TrimEmpty(s.value);
    }
  }
}
