/**
 * Provisioning of the app's offline calendar account (`CalendarRepository`): the
 * calendar row it inserts, the internal calendar name derived from the display name,
 * the palette of calendar and event colours inserted once per account, and the
 * sync-adapter form of a provider URI.
 *
 * The content provider is abstracted as the rows of its Colors and Calendars tables;
 * the uri that the calendar insert answers is an input.
 */
module CalendarRepository {
  import opened Wrappers
  import opened JavaLang

  const ACCOUNT_TYPE_LOCAL := "LOCAL"
  const DEFAULT_COLOR_KEY := "1"
  const INTERNAL_NAME_PREFIX := "kr_local_"
  /** `Colors.TYPE_CALENDAR`, `Colors.TYPE_EVENT`. */
  const TYPE_CALENDAR := 0
  const TYPE_EVENT := 1
  /** `Calendars.CAL_ACCESS_ROOT`, `Reminders.METHOD_ALERT`, `Attendees.TYPE_NONE`. */
  const CAL_ACCESS_ROOT := 800
  const METHOD_ALERT := 1
  const TYPE_NONE := 0

  // ----- The internal name -----

  /** The characters `[a-zA-Z0-9]` matches. */
  predicate IsAsciiAlphanumeric(c: char) {
    ('a' <= c <= 'z') || ('A' <= c <= 'Z') || ('0' <= c <= '9')
  }

  /** `replace("[^a-zA-Z0-9]".toRegex(), "")`: keep the letters and digits, in order. */
  function KeepAlphanumeric(s: string): (t: string)
    ensures |t| <= |s|
    ensures forall i :: 0 <= i < |t| ==> IsAsciiAlphanumeric(t[i])
  {
    if s == [] then []
    else KeepAlphanumeric(s[..|s| - 1]) + (if IsAsciiAlphanumeric(s[|s| - 1]) then [s[|s| - 1]] else [])
  }

  /** The NAME column of the local calendar. */
  function InternalName(displayName: string): (name: string)
    ensures |name| >= |INTERNAL_NAME_PREFIX| && name[..|INTERNAL_NAME_PREFIX|] == INTERNAL_NAME_PREFIX
  {
    INTERNAL_NAME_PREFIX + KeepAlphanumeric(displayName)
  }

  /**
   * The filter drops exactly the other characters: a name made of letters and digits is
   * kept whole, every character it keeps comes from the input, the filter is
   * idempotent, and it distributes over concatenation.
   */
  lemma {:induction false} KeepAlphanumericMeaning(s: string)
    ensures (forall i :: 0 <= i < |s| ==> IsAsciiAlphanumeric(s[i])) ==> KeepAlphanumeric(s) == s
    ensures forall c :: c in KeepAlphanumeric(s) <==> c in s && IsAsciiAlphanumeric(c)
    ensures KeepAlphanumeric(KeepAlphanumeric(s)) == KeepAlphanumeric(s)
  {
    KeepWhole(s);
    KeepMembers(s);
    KeepWhole(KeepAlphanumeric(s));
  }

  lemma {:induction false} KeepWhole(s: string)
    ensures (forall i :: 0 <= i < |s| ==> IsAsciiAlphanumeric(s[i])) ==> KeepAlphanumeric(s) == s
  {
    if s != [] && forall i :: 0 <= i < |s| ==> IsAsciiAlphanumeric(s[i]) {
      var init := s[..|s| - 1];
      assert forall i :: 0 <= i < |init| ==> IsAsciiAlphanumeric(init[i]) by {
        forall i | 0 <= i < |init| ensures IsAsciiAlphanumeric(init[i]) {
          assert init[i] == s[i];
        }
      }
      KeepWhole(init);
      assert s == init + [s[|s| - 1]];
    }
  }

  lemma {:induction false} KeepMembers(s: string)
    ensures forall c :: c in KeepAlphanumeric(s) <==> c in s && IsAsciiAlphanumeric(c)
  {
    if s != [] {
      var init := s[..|s| - 1];
      KeepMembers(init);
      assert s == init + [s[|s| - 1]];
    }
  }

  /** Filtering a concatenation filters each part. */
  lemma {:induction false} KeepAppend(a: string, b: string)
    ensures KeepAlphanumeric(a + b) == KeepAlphanumeric(a) + KeepAlphanumeric(b)
  {
    if b != [] {
      var binit := b[..|b| - 1];
      KeepAppend(a, binit);
      assert (a + b)[..|a + b| - 1] == a + binit;
      assert b[..|b| - 1] == binit;
    } else {
      assert a + b == a;
    }
  }

  /** Two display names differing only in other characters give the same calendar name. */
  lemma InternalNameIgnoresPunctuation(x: string, y: string)
    ensures InternalName(x + " " + y) == InternalName(x + y)
    ensures InternalName(x + "-" + y) == InternalName(x + y)
  {
    KeepAppend(x + " ", y);
    KeepAppend(x, " ");
    KeepAppend(x + "-", y);
    KeepAppend(x, "-");
    KeepAppend(x, y);
    assert KeepAlphanumeric(" ") == KeepAlphanumeric([]) + [];
    assert KeepAlphanumeric("-") == KeepAlphanumeric([]) + [];
  }

  // ----- The calendar row -----

  datatype CalendarRow = CalendarRow(
    accountName: string, accountType: string, ownerAccount: string,
    name: string, displayName: string, colorKey: string, accessLevel: int,
    visible: int, syncEvents: int, isPrimary: int, canOrganizerRespond: int, canModifyTimeZone: int,
    allowedReminders: string, allowedAttendeeTypes: string)

  /**
   * `buildLocalCalendarContentValues`: a visible, synced, non-primary local calendar the
   * account owns with full access, default colour key, time-zone changes allowed,
   * organizer responses off, alert reminders only and no attendee types.
   */
  function BuildLocalCalendar(accountName: string, displayName: string): (row: CalendarRow)
    ensures row.accountName == row.ownerAccount == accountName && row.accountType == ACCOUNT_TYPE_LOCAL
    ensures row.name == InternalName(displayName) && row.displayName == displayName
    ensures row.allowedReminders == IntToString(METHOD_ALERT)
    ensures row.allowedAttendeeTypes == IntToString(TYPE_NONE)
  {
    CalendarRow(accountName, ACCOUNT_TYPE_LOCAL, accountName,
                InternalName(displayName), displayName, DEFAULT_COLOR_KEY, CAL_ACCESS_ROOT,
                1, 1, 0, 0, 1,
                IntToString(METHOD_ALERT), IntToString(TYPE_NONE))
  }

  /** The allowed-reminders list of the local calendar reads back as the single method ALERT. */
  lemma AllowedRemindersAreAlertOnly(accountName: string, displayName: string)
    ensures Split(BuildLocalCalendar(accountName, displayName).allowedReminders, ',') == ["1"]
    ensures ParseInt(BuildLocalCalendar(accountName, displayName).allowedReminders) == Some(METHOD_ALERT)
  {
    assert IntToString(METHOD_ALERT) == "1";
    assert ',' !in "1";
    ParseIntToString(METHOD_ALERT);
  }

  // ----- Colours -----

  datatype ColorRow = ColorRow(accountName: string, accountType: string, colorType: int, colorKey: string, color: int)

  /** The two rows `maybeAddCalendarAndEventColors` adds for palette entry `i`: a calendar colour then an event colour. */
  function ColorPair(accountName: string, i: nat, color: int): seq<ColorRow> {
    [ColorRow(accountName, ACCOUNT_TYPE_LOCAL, TYPE_CALENDAR, IntToString(i), color),
     ColorRow(accountName, ACCOUNT_TYPE_LOCAL, TYPE_EVENT, IntToString(i), color)]
  }

  /** The bulk insert for a palette: two rows per colour, keyed by the colour's index. */
  function ColorRows(accountName: string, palette: seq<int>): (rows: seq<ColorRow>)
    ensures |rows| == 2 * |palette|
    ensures forall i :: 0 <= i < |palette| ==>
      rows[2 * i] == ColorRow(accountName, ACCOUNT_TYPE_LOCAL, TYPE_CALENDAR, IntToString(i), palette[i])
      && rows[2 * i + 1] == ColorRow(accountName, ACCOUNT_TYPE_LOCAL, TYPE_EVENT, IntToString(i), palette[i])
  {
    if palette == [] then []
    else ColorRows(accountName, palette[..|palette| - 1]) + ColorPair(accountName, |palette| - 1, palette[|palette| - 1])
  }

  /** The account already has local colours (`areCalendarColorsExisting`). */
  predicate HasLocalColors(colors: seq<ColorRow>, accountName: string) {
    exists i :: 0 <= i < |colors| && colors[i].accountName == accountName && colors[i].accountType == ACCOUNT_TYPE_LOCAL
  }

  /** The Colors table after `maybeAddCalendarAndEventColors`: unchanged if the account has colours, else the palette appended. */
  function AddColors(colors: seq<ColorRow>, accountName: string, palette: seq<int>): seq<ColorRow> {
    if HasLocalColors(colors, accountName) then colors else colors + ColorRows(accountName, palette)
  }

  /**
   * Provisioning is idempotent: a second call adds nothing, and a first call with a
   * non-empty palette leaves the account with local colours.
   */
  lemma AddColorsIdempotent(colors: seq<ColorRow>, accountName: string, palette: seq<int>)
    ensures AddColors(AddColors(colors, accountName, palette), accountName, palette) == AddColors(colors, accountName, palette)
    ensures |palette| > 0 ==> HasLocalColors(AddColors(colors, accountName, palette), accountName)
  {
    var once := AddColors(colors, accountName, palette);
    if !HasLocalColors(colors, accountName) && |palette| > 0 {
      assert once[|colors|] == ColorRows(accountName, palette)[2 * 0];
    }
    if HasLocalColors(colors, accountName) {
    } else if |palette| > 0 {
      assert HasLocalColors(once, accountName);
    } else {
      assert once == colors;
    }
  }

  /** Every colour of the palette is offered for calendars and for events, under its index. */
  lemma ColorRowsCover(accountName: string, palette: seq<int>, i: nat)
    requires i < |palette|
    ensures ColorRow(accountName, ACCOUNT_TYPE_LOCAL, TYPE_CALENDAR, IntToString(i), palette[i]) in ColorRows(accountName, palette)
    ensures ColorRow(accountName, ACCOUNT_TYPE_LOCAL, TYPE_EVENT, IntToString(i), palette[i]) in ColorRows(accountName, palette)
    ensures forall r :: r in ColorRows(accountName, palette) ==> r.accountName == accountName && r.accountType == ACCOUNT_TYPE_LOCAL
  {
    var rows := ColorRows(accountName, palette);
    assert rows[2 * i] in rows && rows[2 * i + 1] in rows;
    ColorRowsAccount(accountName, palette);
    forall r | r in rows ensures r.accountName == accountName && r.accountType == ACCOUNT_TYPE_LOCAL {
      var k :| 0 <= k < |rows| && rows[k] == r;
    }
  }

  lemma ColorRowsAccount(accountName: string, palette: seq<int>)
    ensures forall k :: 0 <= k < |ColorRows(accountName, palette)| ==>
      ColorRows(accountName, palette)[k].accountName == accountName
      && ColorRows(accountName, palette)[k].accountType == ACCOUNT_TYPE_LOCAL
  {
    var rows := ColorRows(accountName, palette);
    forall k | 0 <= k < |rows| ensures rows[k].accountName == accountName && rows[k].accountType == ACCOUNT_TYPE_LOCAL {
      var j := k / 2;
      assert j < |palette|;
      if k % 2 == 0 {
        assert k == 2 * j;
        assert rows[k] == ColorRow(accountName, ACCOUNT_TYPE_LOCAL, TYPE_CALENDAR, IntToString(j), palette[j]);
      } else {
        assert k == 2 * j + 1;
        assert rows[k] == ColorRow(accountName, ACCOUNT_TYPE_LOCAL, TYPE_EVENT, IntToString(j), palette[j]);
      }
    }
  }

  // ----- URIs -----

  datatype Uri = Uri(path: string, query: seq<(string, string)>)

  const CALLER_IS_SYNCADAPTER := "caller_is_syncadapter"
  const ACCOUNT_NAME := "account_name"
  const ACCOUNT_TYPE := "account_type"

  /** `asLocalCalendarSyncAdapter`: append the sync-adapter flag, the account name and the local account type. */
  function AsLocalCalendarSyncAdapter(accountName: string, uri: Uri): (r: Uri)
    ensures r.path == uri.path && |r.query| == |uri.query| + 3 && r.query[..|uri.query|] == uri.query
  {
    Uri(uri.path, uri.query + [(CALLER_IS_SYNCADAPTER, "true"), (ACCOUNT_NAME, accountName), (ACCOUNT_TYPE, ACCOUNT_TYPE_LOCAL)])
  }

  /** `Uri.getQueryParameter`: the value of the first parameter with that name. */
  function QueryParameter(query: seq<(string, string)>, name: string): Option<string> {
    if query == [] then None
    else if query[0].0 == name then Some(query[0].1)
    else QueryParameter(query[1..], name)
  }

  lemma {:induction false} QueryParameterAppend(a: seq<(string, string)>, b: seq<(string, string)>, name: string)
    requires forall p :: p in a ==> p.0 != name
    ensures QueryParameter(a + b, name) == QueryParameter(b, name)
  {
    if a != [] {
      assert (a + b)[1..] == a[1..] + b;
      QueryParameterAppend(a[1..], b, name);
    } else {
      assert a + b == b;
    }
  }

  /**
   * A provider reading the sync-adapter URI finds the caller flagged as sync adapter,
   * the account name and the local account type, provided the URI did not already name
   * those parameters.
   */
  lemma SyncAdapterParameters(accountName: string, uri: Uri)
    requires forall p :: p in uri.query ==> p.0 != CALLER_IS_SYNCADAPTER && p.0 != ACCOUNT_NAME && p.0 != ACCOUNT_TYPE
    ensures var q := AsLocalCalendarSyncAdapter(accountName, uri).query;
      QueryParameter(q, CALLER_IS_SYNCADAPTER) == Some("true")
      && QueryParameter(q, ACCOUNT_NAME) == Some(accountName)
      && QueryParameter(q, ACCOUNT_TYPE) == Some(ACCOUNT_TYPE_LOCAL)
  {
    var tail := [(CALLER_IS_SYNCADAPTER, "true"), (ACCOUNT_NAME, accountName), (ACCOUNT_TYPE, ACCOUNT_TYPE_LOCAL)];
    QueryParameterAppend(uri.query, tail, CALLER_IS_SYNCADAPTER);
    QueryParameterAppend(uri.query, tail, ACCOUNT_NAME);
    QueryParameterAppend(uri.query, tail, ACCOUNT_TYPE);
    assert |CALLER_IS_SYNCADAPTER| != |ACCOUNT_NAME| && ACCOUNT_NAME[8] != ACCOUNT_TYPE[8];
    assert tail[1..] == [(ACCOUNT_NAME, accountName), (ACCOUNT_TYPE, ACCOUNT_TYPE_LOCAL)];
    assert tail[1..][1..] == [(ACCOUNT_TYPE, ACCOUNT_TYPE_LOCAL)];
    assert QueryParameter(tail, CALLER_IS_SYNCADAPTER) == Some("true");
    assert QueryParameter(tail, ACCOUNT_NAME) == QueryParameter(tail[1..], ACCOUNT_NAME) == Some(accountName);
    assert QueryParameter(tail, ACCOUNT_TYPE) == QueryParameter(tail[1..], ACCOUNT_TYPE);
    assert QueryParameter(tail[1..], ACCOUNT_TYPE) == QueryParameter(tail[1..][1..], ACCOUNT_TYPE);
  }

  // ----- The repository over the provider's tables -----

  class Repository {
    var colors: seq<ColorRow>
    var calendars: seq<CalendarRow>

    constructor(colors0: seq<ColorRow>, calendars0: seq<CalendarRow>)
      ensures colors == colors0 && calendars == calendars0
    {
      colors, calendars := colors0, calendars0;
    }

    /** `areCalendarColorsExisting`: the query for local colours of the account finds a row. */
    method AreCalendarColorsExisting(accountName: string) returns (found: bool)
      ensures found <==> HasLocalColors(colors, accountName)
    {
      for i := 0 to |colors|
        invariant forall k :: 0 <= k < i ==> !(colors[k].accountName == accountName && colors[k].accountType == ACCOUNT_TYPE_LOCAL)
      {
        if colors[i].accountName == accountName && colors[i].accountType == ACCOUNT_TYPE_LOCAL {
          return true;
        }
      }
      return false;
    }

    /**
     * `maybeAddCalendarAndEventColors`: when the account has no local colours yet,
     * bulk-insert a calendar row and an event row for each palette colour.
     */
    method MaybeAddCalendarAndEventColors(accountName: string, palette: seq<int>)
      modifies this`colors
      ensures colors == AddColors(old(colors), accountName, palette)
    {
      var existing := AreCalendarColorsExisting(accountName);
      if existing {
        return;
      }
      var insertBulk := [];
      for i := 0 to |palette|
        invariant insertBulk == ColorRows(accountName, palette[..i])
      {
        assert palette[..i + 1][..i] == palette[..i];
        insertBulk := insertBulk + ColorPair(accountName, i, palette[i]);
      }
      assert palette[..|palette|] == palette;
      colors := colors + insertBulk;
    }

    /**
     * `addLocalCalendar`: provision the colours first, then insert the calendar row; the
     * uri the provider answers is returned, and a missing one raises
     * `IllegalArgumentException` (the colours stay provisioned).
     */
    method AddLocalCalendar(accountName: string, displayName: string, palette: seq<int>, inserted: Option<Uri>)
      returns (r: Result<Uri, string>)
      modifies this
      ensures colors == AddColors(old(colors), accountName, palette)
      ensures inserted.Some? ==> r == Ok(inserted.value) && calendars == old(calendars) + [BuildLocalCalendar(accountName, displayName)]
      ensures inserted.None? ==> r.Err? && calendars == old(calendars)
    {
      MaybeAddCalendarAndEventColors(accountName, palette);
      var cv := BuildLocalCalendar(accountName, displayName);
      if inserted.None? {
        return Err("IllegalArgumentException");
      }
      calendars := calendars + [cv];
      return Ok(inserted.value);
    }
  }
}
