/**
 * The `Time` class of the common library: a broken-down date and time (`month` counts from
 * 0) with the RFC 5545 text forms DATE (`yyyyMMdd`, section 3.3.4) and DATE-TIME
 * (`yyyyMMddTHHmmss` with an optional `Z`, section 3.3.5), field maxima, and `normalize`,
 * which carries hours, minutes and seconds into days and days into months. Exceptions are
 * the `Err` of a `Result`; the fields a failing `parse` had already written stay written.
 * Joda's ISO calendar is the proleptic Gregorian calendar of the `Gregorian` module.
 */
module Time {
  import opened Wrappers
  import opened JavaLang
  import Gregorian

  const TIMEZONE_UTC: string := "UTC"
  const ONE_DAY_SECONDS: int := 86400
  const ONE_HOUR_SECONDS: int := 3600
  const ONE_MINUTE_SECONDS: int := 60

  // Field names of `getActualMaximum`.
  const SECOND: int := 1
  const MINUTE: int := 2
  const HOUR: int := 3
  const MONTH_DAY: int := 4
  const MONTH: int := 5
  const YEAR: int := 6
  const WEEK_DAY: int := 7
  const YEAR_DAY: int := 8
  const WEEK_NUM: int := 9

  /** `DAYS_PER_MONTH`, indexed by the 0-based month. */
  const DAYS_PER_MONTH: seq<int> := [31, 28, 31, 30, 31, 30, 31, 31, 30, 31, 30, 31]

  /** The exceptions the operations raise. */
  datatype TimeError =
    | NullString                 // parse(null)
    | TooShort(length: int)      // fewer than 8, or 9 to 14, characters
    | ParseErrorAt(pos: int)     // a non-digit where a digit must be
    | UnexpectedChar(pos: int)   // not the 'T' or 'Z' expected there
    | NullTimezone               // timezone.equals or clear(null) on a null string
    | IndexOutOfBounds(index: int)
    | WeekNumNotImplemented
    | BadField(field: int)

  /** All the fields of a `Time`, as one value. */
  datatype Fields = Fields(
    year: int, month: int, monthDay: int, yearDay: int, weekDay: int,
    hour: int, minute: int, second: int, isDst: int, allDay: bool,
    timezone: Option<string>, gmtoff: int)

  /** `getChar`: the digit at `spos` times `mul`, or a parse error at `spos`. */
  function GetChar(s: string, spos: int, mul: int): (r: Result<int, TimeError>)
    requires 0 <= spos < |s|
    ensures r.Ok? <==> IsDigit(s[spos])
    ensures r.Ok? ==> r.value == DigitValue(s[spos]) * mul
    ensures r.Err? ==> r.error == ParseErrorAt(spos)
  {
    if IsDigit(s[spos]) then Ok(DigitValue(s[spos]) * mul) else Err(ParseErrorAt(spos))
  }

  /** Two digits read by `getChar` with the multipliers 10 and 1. */
  function Number2(s: string, p: int): Result<int, TimeError>
    requires 0 <= p && p + 1 < |s|
  {
    match GetChar(s, p, 10)
    case Err(e) => Err(e)
    case Ok(a) =>
      match GetChar(s, p + 1, 1)
      case Err(e) => Err(e)
      case Ok(b) => Ok(a + b)
  }

  /** Four digits read by `getChar` with the multipliers 1000, 100, 10 and 1. */
  function Number4(s: string, p: int): Result<int, TimeError>
    requires 0 <= p && p + 3 < |s|
  {
    match GetChar(s, p, 1000)
    case Err(e) => Err(e)
    case Ok(a) =>
      match GetChar(s, p + 1, 100)
      case Err(e) => Err(e)
      case Ok(b) =>
        match Number2(s, p + 2)
        case Err(e) => Err(e)
        case Ok(c) => Ok(a + b + c)
  }

  /** The end of `parseInternal`: the derived fields are reset. */
  function ParseDone(f: Fields, inUtc: bool): (Result<bool, TimeError>, Fields) {
    (Ok(inUtc), f.(weekDay := 0, yearDay := 0, isDst := -1, gmtoff := 0))
  }

  /** `parseInternal` from position 8 on, after the date is read. */
  function ParseRest(s: string, f: Fields): (Result<bool, TimeError>, Fields)
    requires |s| >= 8
  {
    if |s| > 8 then
      if |s| < 15 then (Err(TooShort(|s|)), f)
      else if s[8] != 'T' then (Err(UnexpectedChar(8)), f)
      else ParseClock(s, f.(allDay := false))
    else
      ParseDone(f.(allDay := true, hour := 0, minute := 0, second := 0), false)
  }

  /** The time digits at 9, 11 and 13, then the optional `Z` at 15. */
  function ParseClock(s: string, f: Fields): (Result<bool, TimeError>, Fields)
    requires |s| >= 15
  {
    match Number2(s, 9)
    case Err(e) => (Err(e), f)
    case Ok(h) =>
      var f := f.(hour := h);
      match Number2(s, 11)
      case Err(e) => (Err(e), f)
      case Ok(mi) =>
        var f := f.(minute := mi);
        match Number2(s, 13)
        case Err(e) => (Err(e), f)
        case Ok(sec) =>
          var f := f.(second := sec);
          if |s| > 15 then
            if s[15] != 'Z' then (Err(UnexpectedChar(15)), f) else ParseDone(f, true)
          else ParseDone(f, false)
  }

  function ParseInternalSpec(s: string, f: Fields): (Result<bool, TimeError>, Fields) {
    if |s| < 8 then (Err(TooShort(|s|)), f)
    else
      match Number4(s, 0)
      case Err(e) => (Err(e), f)
      case Ok(y) =>
        var f := f.(year := y);
        match Number2(s, 4)
        case Err(e) => (Err(e), f)
        case Ok(mo) =>
          var f := f.(month := mo - 1);
          match Number2(s, 6)
          case Err(e) => (Err(e), f)
          case Ok(d) => ParseRest(s, f.(monthDay := d))
  }

  /** `parse`: a UTC time also sets the timezone to "UTC". */
  function ParseSpec(s: Option<string>, f: Fields): (Result<bool, TimeError>, Fields) {
    if s.None? then (Err(NullString), f)
    else
      var (r, g) := ParseInternalSpec(s.value, f);
      if r == Ok(true) then (r, g.(timezone := Some(TIMEZONE_UTC))) else (r, g)
  }

  /** The seconds of the day as `normalize` adds them up. */
  function TotalSeconds(f: Fields): int {
    f.hour * ONE_HOUR_SECONDS + f.minute * ONE_MINUTE_SECONDS + f.second
  }

  /**
   * The day `normalize` lands on: the first of the month with the months carried into the
   * year, plus the days of the month minus one, plus the whole days of the time of day.
   */
  function NormalDay(f: Fields): int {
    Gregorian.DayNumber(f.year + f.month / 12, f.month % 12 + 1, 1) + f.monthDay - 1
      + TotalSeconds(f) / ONE_DAY_SECONDS
  }

  /**
   * `g` is `f` normalized: the valid date of `NormalDay(f)`, the time of day left after the
   * whole days, its weekday, the raw offset in seconds, and every other field kept.
   */
  predicate NormalizationOf(g: Fields, f: Fields, rawOffset: int) {
    var rest := TotalSeconds(f) % ONE_DAY_SECONDS;
    var dt := Gregorian.Date(g.year, g.month + 1, g.monthDay);
    Gregorian.ValidDate(dt) && Gregorian.DateNumber(dt) == NormalDay(f)
    && g.hour == rest / ONE_HOUR_SECONDS
    && g.minute == (rest % ONE_HOUR_SECONDS) / ONE_MINUTE_SECONDS
    && g.second == (rest % ONE_HOUR_SECONDS) % ONE_MINUTE_SECONDS
    && g.weekDay == Gregorian.DayOfWeek(NormalDay(f))
    && g.gmtoff == JavaDiv(rawOffset, 1000)
    && g.yearDay == f.yearDay && g.isDst == f.isDst && g.allDay == f.allDay && g.timezone == f.timezone
  }

  /** The seconds since the day-number epoch that the fields stand for, months carried. */
  function Instant(f: Fields): int {
    (Gregorian.DayNumber(f.year + f.month / 12, f.month % 12 + 1, 1) + f.monthDay - 1) * ONE_DAY_SECONDS
      + TotalSeconds(f)
  }

  /** Fields in range: a valid date with a 0-based month and a time of day. */
  predicate Normal(f: Fields) {
    0 <= f.month < 12 && Gregorian.ValidDate(Gregorian.Date(f.year, f.month + 1, f.monthDay))
    && 0 <= f.hour < 24 && 0 <= f.minute < 60 && 0 <= f.second < 60
  }

  function LeapRule(y: int): bool {
    JavaRem(y, 4) == 0 && (JavaRem(y, 100) != 0 || JavaRem(y, 400) == 0)
  }

  class Time {
    var year: int
    var month: int
    var monthDay: int
    var yearDay: int
    var weekDay: int
    var hour: int
    var minute: int
    var second: int
    var isDst: int
    var allDay: bool
    var timezone: Option<string>
    var gmtoff: int

    function Snapshot(): Fields
      reads this
    {
      Fields(year, month, monthDay, yearDay, weekDay, hour, minute, second, isDst, allDay, timezone, gmtoff)
    }

    /** `parse(s)`. */
    method Parse(s: Option<string>) returns (r: Result<bool, TimeError>)
      modifies this
      ensures (r, Snapshot()) == ParseSpec(s, old(Snapshot()))
    {
      if s.None? {
        return Err(NullString);
      }
      r := ParseInternal(s.value);
      if r == Ok(true) {
        timezone := Some(TIMEZONE_UTC);
      }
    }

    /** `parseInternal(s)`: writes the fields as it reads them. */
    method ParseInternal(s: string) returns (r: Result<bool, TimeError>)
      modifies this
      ensures (r, Snapshot()) == ParseInternalSpec(s, old(Snapshot()))
    {
      var len := |s|;
      if len < 8 {
        return Err(TooShort(len));
      }
      // year
      var n := ReadNumber4(s, 0);
      if n.Err? {
        return Err(n.error);
      }
      year := n.value;
      // month
      n := ReadNumber2(s, 4);
      if n.Err? {
        return Err(n.error);
      }
      month := n.value - 1;
      // day of month
      n := ReadNumber2(s, 6);
      if n.Err? {
        return Err(n.error);
      }
      monthDay := n.value;
      r := ParseTimeOfDay(s);
    }

    /** `parseInternal` from position 8 on: the time of day, or the all-day marker. */
    method ParseTimeOfDay(s: string) returns (r: Result<bool, TimeError>)
      requires |s| >= 8
      modifies this
      ensures (r, Snapshot()) == ParseRest(s, old(Snapshot()))
    {
      var len := |s|;
      if len > 8 {
        if len < 15 {
          return Err(TooShort(len));
        }
        if s[8] != 'T' {
          return Err(UnexpectedChar(8));
        }
        allDay := false;
        r := ParseClockDigits(s);
      } else {
        allDay := true;
        hour := 0;
        minute := 0;
        second := 0;
        r := FinishParse(false);
      }
    }

    /** The `HHmmss` digits and the optional `Z` of a date-time. */
    method ParseClockDigits(s: string) returns (r: Result<bool, TimeError>)
      requires |s| >= 15
      modifies this
      ensures (r, Snapshot()) == ParseClock(s, old(Snapshot()))
    {
      var inUtc := false;
      var n := ReadNumber2(s, 9);
      if n.Err? {
        return Err(n.error);
      }
      hour := n.value;
      n := ReadNumber2(s, 11);
      if n.Err? {
        return Err(n.error);
      }
      minute := n.value;
      n := ReadNumber2(s, 13);
      if n.Err? {
        return Err(n.error);
      }
      second := n.value;
      if |s| > 15 {
        if s[15] != 'Z' {
          return Err(UnexpectedChar(15));
        }
        inUtc := true;
      }
      r := FinishParse(inUtc);
    }

    /** The end of a successful parse: the derived fields are cleared. */
    method FinishParse(inUtc: bool) returns (r: Result<bool, TimeError>)
      modifies this
      ensures (r, Snapshot()) == ParseDone(old(Snapshot()), inUtc)
    {
      weekDay := 0;
      yearDay := 0;
      isDst := -1;
      gmtoff := 0;
      return Ok(inUtc);
    }

    /** `format2445`: `yyyyMMddTHHmmss`, with a `Z` for the "UTC" timezone. */
    function Format2445(): (r: Result<string, TimeError>)
      reads this
      ensures r.Err? <==> timezone.None?
      ensures r.Ok? ==> (|r.value| > 0 && r.value[|r.value| - 1] == 'Z' <==> timezone.value == TIMEZONE_UTC)
    {
      var body := IntToString(year) + Pad2(month + 1) + Pad2(monthDay) + "T"
        + Pad2(hour) + Pad2(minute) + Pad2(second);
      if timezone.None? then Err(NullTimezone)
      else if timezone.value == TIMEZONE_UTC then Ok(body + "Z")
      else Ok(body)
    }

    /** `getActualMaximum(field)`. */
    function GetActualMaximum(field: int): (r: Result<int, TimeError>)
      reads this
      ensures field == MONTH_DAY && 0 <= month < 12 ==> r.Ok?
      ensures field == MONTH_DAY && !(0 <= month < 12) ==> r == Err(IndexOutOfBounds(month))
      ensures field == WEEK_NUM ==> r == Err(WeekNumNotImplemented)
      ensures !(1 <= field <= 9) ==> r == Err(BadField(field))
    {
      if field == SECOND then Ok(59)
      else if field == MINUTE then Ok(59)
      else if field == HOUR then Ok(23)
      else if field == MONTH_DAY then
        if !(0 <= month < |DAYS_PER_MONTH|) then Err(IndexOutOfBounds(month))
        else
          var n := DAYS_PER_MONTH[month];
          if n != 28 then Ok(n) else Ok(if LeapRule(year) then 29 else 28)
      else if field == MONTH then Ok(11)
      else if field == YEAR then Ok(2300)
      else if field == WEEK_DAY then Ok(6)
      else if field == YEAR_DAY then Ok(if LeapRule(year) then 365 else 364)
      else if field == WEEK_NUM then Err(WeekNumNotImplemented)
      else Err(BadField(field))
    }

    /**
     * `normalize`, with the two carries as evidently intended (see `SecondsCarryAsWritten`
     * and `MonthCarryAsWritten` for the code as written).
     */
    method Normalize(rawOffset: int)
      modifies this
      ensures NormalizationOf(Snapshot(), old(Snapshot()), rawOffset)
    {
      var g := NormalizeValues(Snapshot(), rawOffset);
      year, month, monthDay, hour, minute, second := g.year, g.month, g.monthDay, g.hour, g.minute, g.second;
      weekDay, gmtoff := g.weekDay, g.gmtoff;
      assert Snapshot() == g;
    }

    /** `clear(timezoneId)`. */
    method ClearWithTimezone(timezoneId: Option<string>) returns (err: Option<TimeError>)
      modifies this
      ensures timezoneId.None? ==> err == Some(NullTimezone) && Snapshot() == old(Snapshot())
      ensures timezoneId.Some? ==>
        err.None? && Snapshot() == Fields(0, 0, 0, 0, 0, 0, 0, 0, old(isDst), false, timezoneId, 0)
    {
      if timezoneId.None? {
        return Some(NullTimezone);
      }
      timezone := timezoneId;
      allDay := false;
      second, minute, hour := 0, 0, 0;
      monthDay, month, year := 0, 0, 0;
      weekDay, yearDay, gmtoff := 0, 0, 0;
      return None;
    }

    /** `clear()`: note that it sets the month to 1, not 0, and keeps the timezone. */
    method Clear()
      modifies this
      ensures Snapshot() == Fields(0, 1, 0, 0, 0, 0, 0, 0, old(isDst), false, old(timezone), 0)
    {
      allDay := false;
      second, minute, hour := 0, 0, 0;
      monthDay, month, year := 0, 1, 0;
      weekDay, yearDay, gmtoff := 0, 0, 0;
    }
  }

  /** Reading two digits, as the two `getChar` calls of `parseInternal` do. */
  method ReadNumber2(s: string, p: int) returns (n: Result<int, TimeError>)
    requires 0 <= p && p + 1 < |s|
    ensures n == Number2(s, p)
  {
    var c := GetChar(s, p, 10);
    if c.Err? {
      return Err(c.error);
    }
    var d := GetChar(s, p + 1, 1);
    if d.Err? {
      return Err(d.error);
    }
    return Ok(c.value + d.value);
  }

  /** Reading four digits, as the four `getChar` calls of `parseInternal` do. */
  method ReadNumber4(s: string, p: int) returns (n: Result<int, TimeError>)
    requires 0 <= p && p + 3 < |s|
    ensures n == Number4(s, p)
  {
    var a := GetChar(s, p, 1000);
    if a.Err? {
      return Err(a.error);
    }
    var b := GetChar(s, p + 1, 100);
    if b.Err? {
      return Err(b.error);
    }
    var c := ReadNumber2(s, p + 2);
    if c.Err? {
      return Err(c.error);
    }
    return Ok(a.value + b.value + c.value);
  }

  /** The steps of `normalize` on the field values. */
  method NormalizeValues(f: Fields, rawOffset: int) returns (g: Fields)
    ensures NormalizationOf(g, f, rawOffset)
  {
    var dayCount, totalSecond := CarrySeconds(f.hour * ONE_HOUR_SECONDS + f.minute * ONE_MINUTE_SECONDS + f.second);
    var hour := totalSecond / ONE_HOUR_SECONDS;
    var minute := (totalSecond % ONE_HOUR_SECONDS) / ONE_MINUTE_SECONDS;
    var second := (totalSecond % ONE_HOUR_SECONDS) % ONE_MINUTE_SECONDS;
    var monthDay := f.monthDay + dayCount;
    var year, month := CarryMonths(f.year, f.month);
    var dt := DayOfMonthCarry(year, month, monthDay);
    // calculate()
    var gmtoff := JavaDiv(rawOffset, 1000);
    var weekDay := Gregorian.DayOfWeek(Gregorian.DateNumber(dt));
    g := f.(year := dt.year, month := dt.month - 1, monthDay := dt.day, hour := hour, minute := minute,
      second := second, weekDay := weekDay, gmtoff := gmtoff);
  }

  /** The last step of `normalize`: from the first of the month, back or forward by the days. */
  method DayOfMonthCarry(year: int, month: int, monthDay: int) returns (dt: Gregorian.Date)
    ensures Gregorian.ValidDate(dt) && Gregorian.DateNumber(dt) == Gregorian.DayNumber(year, month + 1, 1) + monthDay - 1
  {
    var first := Gregorian.DayNumber(year, month + 1, 1);
    if monthDay < 1 {
      var back := if monthDay - 1 < 0 then -(monthDay - 1) else monthDay - 1;  // Math.abs
      dt := PlusDays(first, -back);
    } else {
      dt := PlusDays(first, monthDay - 1);
    }
  }

  /** Joda's `plusDays` from the day number `start`; `minusDays(n)` is `plusDays(-n)`. */
  method PlusDays(start: int, days: int) returns (dt: Gregorian.Date)
    ensures Gregorian.ValidDate(dt) && Gregorian.DateNumber(dt) == start + days
  {
    dt := Gregorian.FromDayNumber(start + days);
    Gregorian.DateOfDayNumber(start + days);
  }

  /** The carry loops of `normalize` on the seconds of the day (with `>=`, as intended). */
  method CarrySeconds(total: int) returns (dayCount: int, totalSecond: int)
    ensures dayCount == total / ONE_DAY_SECONDS && totalSecond == total % ONE_DAY_SECONDS
  {
    totalSecond := total;
    dayCount := 0;
    if totalSecond < 0 {
      while totalSecond < 0
        invariant totalSecond + dayCount * ONE_DAY_SECONDS == total
        invariant totalSecond < ONE_DAY_SECONDS
        decreases -totalSecond
      {
        dayCount := dayCount - 1;
        totalSecond := totalSecond + ONE_DAY_SECONDS;
      }
    } else {
      while totalSecond >= ONE_DAY_SECONDS
        invariant totalSecond + dayCount * ONE_DAY_SECONDS == total
        invariant totalSecond >= 0
      {
        dayCount := dayCount + 1;
        totalSecond := totalSecond - ONE_DAY_SECONDS;
      }
    }
    CarryUnique(total, dayCount, totalSecond);
  }

  /** The carry loops of `normalize` on the month (moving the year the intended way). */
  method CarryMonths(year0: int, month0: int) returns (year: int, month: int)
    ensures year == year0 + month0 / 12 && month == month0 % 12
  {
    year, month := year0, month0;
    if month < 0 {
      while month < 0
        invariant 12 * year + month == 12 * year0 + month0 && month < 12
        decreases -month
      {
        month := month + 12;
        year := year - 1;
      }
    } else {
      while month > 11
        invariant 12 * year + month == 12 * year0 + month0 && month >= 0
      {
        month := month - 12;
        year := year + 1;
      }
    }
    MonthUnique(year0, month0, year, month);
  }

  /** A quotient and remainder by a day are the floor division. */
  lemma CarryUnique(total: int, days: int, rest: int)
    requires rest + days * ONE_DAY_SECONDS == total && 0 <= rest < ONE_DAY_SECONDS
    ensures total / ONE_DAY_SECONDS == days && total % ONE_DAY_SECONDS == rest
  {
  }

  lemma MonthUnique(y0: int, m0: int, y: int, m: int)
    requires 12 * y + m == 12 * y0 + m0 && 0 <= m < 12
    ensures y0 + m0 / 12 == y && m0 % 12 == m
  {
  }

  // ----- The two carries of `normalize` as written -----

  /** What a carry loop leaves: the whole units carried and the rest. */
  datatype Carry = Carry(carried: int, rest: int)

  /** `while (totalSecond < 0) { dayCount--; totalSecond += ONE_DAY_SECONDS; }` */
  function CarryUpAsWritten(total: int, days: int): (c: Carry)
    ensures c.rest + c.carried * ONE_DAY_SECONDS == total + days * ONE_DAY_SECONDS
    ensures total < 0 ==> 0 <= c.rest < ONE_DAY_SECONDS
    decreases if total < 0 then -total else 0
  {
    if total < 0 then CarryUpAsWritten(total + ONE_DAY_SECONDS, days - 1) else Carry(days, total)
  }

  /** `while (totalSecond > ONE_DAY_SECONDS) { dayCount++; totalSecond -= ONE_DAY_SECONDS; }` */
  function CarryDownAsWritten(total: int, days: int): (c: Carry)
    ensures c.rest + c.carried * ONE_DAY_SECONDS == total + days * ONE_DAY_SECONDS
    ensures total > 0 ==> 0 < c.rest <= ONE_DAY_SECONDS
    ensures total <= ONE_DAY_SECONDS ==> c == Carry(days, total)
    decreases if total > 0 then total else 0
  {
    if total > ONE_DAY_SECONDS then CarryDownAsWritten(total - ONE_DAY_SECONDS, days + 1) else Carry(days, total)
  }

  /**
   * The seconds carry of `normalize` as written: because the loop tests `>`, a rest of a
   * whole day (86400 seconds) is left in the time of day.
   */
  function SecondsCarryAsWritten(total: int): (c: Carry)
    ensures c.rest + c.carried * ONE_DAY_SECONDS == total
    ensures 0 <= c.rest <= ONE_DAY_SECONDS
  {
    if total < 0 then CarryUpAsWritten(total, 0) else CarryDownAsWritten(total, 0)
  }

  /** The carry as written differs from floor division exactly on positive whole days. */
  lemma SecondsCarryAsWrittenDiffers(total: int)
    ensures SecondsCarryAsWritten(total) != Carry(total / ONE_DAY_SECONDS, total % ONE_DAY_SECONDS)
      <==> total > 0 && total % ONE_DAY_SECONDS == 0
  {
    var c := SecondsCarryAsWritten(total);
    if c.rest < ONE_DAY_SECONDS {
      CarryUnique(total, c.carried, c.rest);
      if total > 0 {
        assert 0 < c.rest;
      }
    } else {
      CarryUnique(total, c.carried + 1, 0);
    }
  }

  /** Midnight of the next day: the hour comes out as 24 and no day is carried. */
  lemma SecondsCarryAsWrittenHour24()
    ensures SecondsCarryAsWritten(ONE_DAY_SECONDS) == Carry(0, ONE_DAY_SECONDS)
    ensures SecondsCarryAsWritten(ONE_DAY_SECONDS).rest / ONE_HOUR_SECONDS == 24
  {
  }

  datatype YearMonth = YearMonth(year: int, month: int)

  /** `while (month < 0) { month += 12; year++; }` */
  function MonthCarryUpAsWritten(year: int, month: int): (r: YearMonth)
    ensures month < 12 ==> r == YearMonth(year - month / 12, month % 12)
    decreases if month < 0 then -month else 0
  {
    if month < 0 then MonthCarryUpAsWritten(year + 1, month + 12) else YearMonth(year, month)
  }

  /** `while (month > 11) { month -= 12; year--; }` */
  function MonthCarryDownAsWritten(year: int, month: int): (r: YearMonth)
    ensures month >= 0 ==> r == YearMonth(year - month / 12, month % 12)
    decreases if month > 0 then month else 0
  {
    if month > 11 then MonthCarryDownAsWritten(year - 1, month - 12) else YearMonth(year, month)
  }

  /**
   * The month carry of `normalize` as written: the month lands in 0..11, but every 12
   * months carried move the year the wrong way.
   */
  function MonthCarryAsWritten(year: int, month: int): (r: YearMonth)
    ensures r == YearMonth(year - month / 12, month % 12)
  {
    if month < 0 then MonthCarryUpAsWritten(year, month) else MonthCarryDownAsWritten(year, month)
  }

  /** The carry as written keeps the months since year 0 only when there is nothing to carry. */
  lemma MonthCarryAsWrittenDiffers(year: int, month: int)
    ensures var r := MonthCarryAsWritten(year, month);
      12 * r.year + r.month == 12 * year + month <==> 0 <= month < 12
  {
  }

  /** Month 12 of 2020 (January 2021) becomes January 2019. */
  lemma MonthCarryAsWrittenGoesBack()
    ensures MonthCarryAsWritten(2020, 12) == YearMonth(2019, 0)
  {
  }

  // ----- Properties of normalize -----

  /** Hour, minute and second of a time of day, and back. */
  lemma SecondsOfDay(rest: int)
    requires 0 <= rest < ONE_DAY_SECONDS
    ensures var h, m, s := rest / ONE_HOUR_SECONDS, (rest % ONE_HOUR_SECONDS) / ONE_MINUTE_SECONDS,
        (rest % ONE_HOUR_SECONDS) % ONE_MINUTE_SECONDS;
      0 <= h < 24 && 0 <= m < 60 && 0 <= s < 60
      && h * ONE_HOUR_SECONDS + m * ONE_MINUTE_SECONDS + s == rest
  {
  }

  lemma TimeOfDayUnique(h: int, m: int, s: int)
    requires 0 <= m < 60 && 0 <= s < 60
    ensures var rest := h * ONE_HOUR_SECONDS + m * ONE_MINUTE_SECONDS + s;
      rest / ONE_HOUR_SECONDS == h && (rest % ONE_HOUR_SECONDS) / ONE_MINUTE_SECONDS == m
      && (rest % ONE_HOUR_SECONDS) % ONE_MINUTE_SECONDS == s
  {
    var rest := h * ONE_HOUR_SECONDS + m * ONE_MINUTE_SECONDS + s;
    var r := m * ONE_MINUTE_SECONDS + s;
    assert 0 <= r < ONE_HOUR_SECONDS;
    assert rest / ONE_HOUR_SECONDS == h && rest % ONE_HOUR_SECONDS == r;
  }

  /**
   * A normalization is in range (the hour below 24 included) and stands for the same instant
   * as the fields it came from.
   */
  lemma NormalizationIsNormal(g: Fields, f: Fields, rawOffset: int)
    requires NormalizationOf(g, f, rawOffset)
    ensures Normal(g) && Instant(g) == Instant(f)
  {
    var total := TotalSeconds(f);
    var rest := total % ONE_DAY_SECONDS;
    SecondsOfDay(rest);
    assert TotalSeconds(g) == rest;
    assert g.month / 12 == 0 && g.month % 12 == g.month;
    var first := Gregorian.DayNumber(f.year + f.month / 12, f.month % 12 + 1, 1) + f.monthDay - 1;
    assert Gregorian.DayNumber(g.year, g.month + 1, 1) + g.monthDay - 1 == first + total / ONE_DAY_SECONDS;
    assert total == (total / ONE_DAY_SECONDS) * ONE_DAY_SECONDS + rest;
  }

  /** There is only one normalization of given fields. */
  lemma NormalizationUnique(g1: Fields, g2: Fields, f: Fields, rawOffset: int)
    requires NormalizationOf(g1, f, rawOffset) && NormalizationOf(g2, f, rawOffset)
    ensures g1 == g2
  {
    Gregorian.DateNumberInjective(Gregorian.Date(g1.year, g1.month + 1, g1.monthDay),
      Gregorian.Date(g2.year, g2.month + 1, g2.monthDay));
  }

  /** Fields already in range keep their date and time; only the weekday and offset are filled in. */
  lemma NormalizationOfNormal(g: Fields, f: Fields, rawOffset: int)
    requires Normal(f) && NormalizationOf(g, f, rawOffset)
    ensures g == f.(weekDay := g.weekDay, gmtoff := g.gmtoff)
  {
    var fd := NormalDayOfNormal(f);
    Gregorian.DateNumberInjective(fd, Gregorian.Date(g.year, g.month + 1, g.monthDay));
  }

  /** The day and the time of day of fields in range are their own. */
  lemma NormalDayOfNormal(f: Fields) returns (fd: Gregorian.Date)
    requires Normal(f)
    ensures fd == Gregorian.Date(f.year, f.month + 1, f.monthDay) && Gregorian.ValidDate(fd)
    ensures NormalDay(f) == Gregorian.DateNumber(fd)
    ensures var rest := TotalSeconds(f) % ONE_DAY_SECONDS;
      rest / ONE_HOUR_SECONDS == f.hour && (rest % ONE_HOUR_SECONDS) / ONE_MINUTE_SECONDS == f.minute
      && (rest % ONE_HOUR_SECONDS) % ONE_MINUTE_SECONDS == f.second
  {
    TimeOfDayUnique(f.hour, f.minute, f.second);
    fd := Gregorian.Date(f.year, f.month + 1, f.monthDay);
    assert f.month / 12 == 0 && f.month % 12 == f.month;
    assert TotalSeconds(f) / ONE_DAY_SECONDS == 0 && TotalSeconds(f) % ONE_DAY_SECONDS == TotalSeconds(f);
  }


  // ----- Properties of parse -----

  /** Four digits at `p` read as the number they write. */
  lemma Number4Digits(s: string, p: int)
    requires 0 <= p && p + 4 <= |s| && AllDigits(s[p..p + 4])
    ensures Number4(s, p) == Ok(DigitsValue(s[p..p + 4]))
  {
    var w := s[p..p + 4];
    var hi, lo := s[p..p + 2], s[p + 2..p + 4];
    assert w == hi + lo && hi == w[..2] && lo == w[2..];
    assert AllDigits(hi) by { forall i | 0 <= i < 2 ensures IsDigit(hi[i]) { assert hi[i] == w[i]; } }
    assert AllDigits(lo) by { forall i | 0 <= i < 2 ensures IsDigit(lo[i]) { assert lo[i] == w[i + 2]; } }
    DigitsValueConcat(hi, lo);
    assert Pow10(2) == 100;
    TwoDigitsValue(hi);
    Number2Digits(s, p + 2);
  }

  /** Two digits at `p` read as the number they write. */
  lemma Number2Digits(s: string, p: int)
    requires 0 <= p && p + 2 <= |s| && AllDigits(s[p..p + 2])
    ensures Number2(s, p) == Ok(DigitsValue(s[p..p + 2]))
  {
    TwoDigitsValue(s[p..p + 2]);
  }

  /** The date digits of a string whose first eight characters are digits. */
  lemma DateDigits(s: string)
    requires |s| >= 8 && AllDigits(s[..8])
    ensures Number4(s, 0) == Ok(DigitsValue(s[..4]))
    ensures Number2(s, 4) == Ok(DigitsValue(s[4..6])) && Number2(s, 6) == Ok(DigitsValue(s[6..8]))
  {
    assert s[0..4] == s[..8][..4] && s[4..6] == s[..8][4..6] && s[6..8] == s[..8][6..8];
    Number4Digits(s, 0);
    Number2Digits(s, 4);
    Number2Digits(s, 6);
  }

  /** Fewer than 8 characters, or 9 to 14, are too short; the latter after the date is read. */
  lemma ParseRejectsLength(s: string, f: Fields)
    ensures |s| < 8 ==> ParseSpec(Some(s), f) == (Err(TooShort(|s|)), f)
    ensures 8 < |s| < 15 ==> ParseSpec(Some(s), f).0.Err?
    ensures 8 < |s| < 15 && AllDigits(s[..8]) ==> ParseSpec(Some(s), f).0 == Err(TooShort(|s|))
    ensures 15 <= |s| && AllDigits(s[..8]) && s[8] != 'T' ==> ParseSpec(Some(s), f).0 == Err(UnexpectedChar(8))
  {
    if |s| >= 8 && AllDigits(s[..8]) {
      DateDigits(s);
    }
  }

  /** `parse` answers `true` only for a 'Z' at position 15, and then the timezone is "UTC". */
  lemma ParseUtcOnlyWithZ(s: string, f: Fields)
    ensures ParseSpec(Some(s), f).0 == Ok(true) ==>
      |s| > 15 && s[15] == 'Z' && ParseSpec(Some(s), f).1.timezone == Some(TIMEZONE_UTC)
    ensures ParseSpec(Some(s), f).0 == Ok(false) ==>
      (|s| == 8 || |s| == 15) && ParseSpec(Some(s), f).1.timezone == f.timezone
    ensures ParseSpec(None, f) == (Err(NullString), f)
  {
  }

  /** A DATE (`yyyyMMdd`, section 3.3.4 of RFC 5545) is an all-day value at midnight. */
  lemma ParseDate(s: string, f: Fields)
    requires |s| == 8 && AllDigits(s)
    ensures ParseSpec(Some(s), f) == (Ok(false), f.(year := DigitsValue(s[..4]), month := DigitsValue(s[4..6]) - 1,
      monthDay := DigitsValue(s[6..8]), allDay := true, hour := 0, minute := 0, second := 0,
      weekDay := 0, yearDay := 0, isDst := -1, gmtoff := 0))
  {
    assert s[..8] == s;
    DateDigits(s);
  }

  /** The first non-digit among the eight date positions is the parse error. */
  lemma ParseDateNonDigit(s: string, f: Fields, i: int)
    requires |s| >= 8 && 0 <= i < 8 && AllDigits(s[..i]) && !IsDigit(s[i])
    ensures ParseSpec(Some(s), f) == (Err(ParseErrorAt(i)), ParseSpec(Some(s), f).1)
  {
    assert forall j :: 0 <= j < i ==> IsDigit(s[j]) by {
      forall j | 0 <= j < i ensures IsDigit(s[j]) { assert s[..i][j] == s[j]; }
    }
  }

  /** Digits in the date and the first non-digit among the six time-of-day positions. */
  lemma ParseTimeNonDigit(s: string, f: Fields, i: int)
    requires |s| >= 15 && AllDigits(s[..8]) && s[8] == 'T'
    requires 9 <= i < 15 && AllDigits(s[9..i]) && !IsDigit(s[i])
    ensures ParseSpec(Some(s), f).0 == Err(ParseErrorAt(i))
  {
    DateDigits(s);
    assert forall j :: 9 <= j < i ==> IsDigit(s[j]) by {
      forall j | 9 <= j < i ensures IsDigit(s[j]) { assert s[9..i][j - 9] == s[j]; }
    }
  }

  /** The text `format2445` writes, cut back into its fields. */
  lemma FormatFields(y: string, mo: string, d: string, h: string, mi: string, se: string, z: string)
    requires |y| == 4 && |mo| == 2 && |d| == 2 && |h| == 2 && |mi| == 2 && |se| == 2
    ensures var s := y + mo + d + "T" + h + mi + se + z;
      |s| == 15 + |z| && s[..8] == y + mo + d && s[..4] == y && s[4..6] == mo && s[6..8] == d && s[8] == 'T'
      && s[9..11] == h && s[11..13] == mi && s[13..15] == se && s[15..] == z
  {
  }

  /**
   * For a four-digit year and two-digit fields, parsing the text of `format2445` gives back
   * the date and time, and `true` with the "UTC" timezone exactly for a UTC time.
   */
  lemma FormatParseRoundTrip(t: Time, f: Fields)
    requires 1000 <= t.year <= 9999 && 0 <= t.month + 1 < 100 && 0 <= t.monthDay < 100
    requires 0 <= t.hour < 100 && 0 <= t.minute < 100 && 0 <= t.second < 100
    requires t.timezone.Some?
    ensures t.Format2445().Ok?
    ensures var utc := t.timezone.value == TIMEZONE_UTC;
      ParseSpec(Some(t.Format2445().value), f)
      == (Ok(utc), f.(year := t.year, month := t.month, monthDay := t.monthDay, hour := t.hour,
        minute := t.minute, second := t.second, allDay := false, weekDay := 0, yearDay := 0,
        isDst := -1, gmtoff := 0, timezone := if utc then Some(TIMEZONE_UTC) else f.timezone))
  {
    FourDigits(t.year);
    Pad2Digits(t.month + 1);
    Pad2Digits(t.monthDay);
    Pad2Digits(t.hour);
    Pad2Digits(t.minute);
    Pad2Digits(t.second);
    var utc := t.timezone.value == TIMEZONE_UTC;
    var y, mo, d := IntToString(t.year), Pad2(t.month + 1), Pad2(t.monthDay);
    var h, mi, se := Pad2(t.hour), Pad2(t.minute), Pad2(t.second);
    assert t.Format2445() == Ok(y + mo + d + "T" + h + mi + se + (if utc then "Z" else "")) by {
      if !utc {
        assert y + mo + d + "T" + h + mi + se + "" == y + mo + d + "T" + h + mi + se;
      }
    }
    ParseFormatted(y, mo, d, h, mi, se, utc, f);
  }

  /** Parsing the fields of `format2445` laid end to end reads each field back. */
  lemma ParseFormatted(y: string, mo: string, d: string, h: string, mi: string, se: string, utc: bool, f: Fields)
    requires |y| == 4 && |mo| == 2 && |d| == 2 && |h| == 2 && |mi| == 2 && |se| == 2
    requires AllDigits(y) && AllDigits(mo) && AllDigits(d) && AllDigits(h) && AllDigits(mi) && AllDigits(se)
    ensures ParseSpec(Some(y + mo + d + "T" + h + mi + se + (if utc then "Z" else "")), f)
      == (Ok(utc), f.(year := DigitsValue(y), month := DigitsValue(mo) - 1, monthDay := DigitsValue(d),
        hour := DigitsValue(h), minute := DigitsValue(mi), second := DigitsValue(se), allDay := false,
        weekDay := 0, yearDay := 0, isDst := -1, gmtoff := 0,
        timezone := if utc then Some(TIMEZONE_UTC) else f.timezone))
  {
    var z := if utc then "Z" else "";
    var s := y + mo + d + "T" + h + mi + se + z;
    FormatFields(y, mo, d, h, mi, se, z);
    assert AllDigits(s[..8]);
    DateDigits(s);
    Number2Digits(s, 9);
    Number2Digits(s, 11);
    Number2Digits(s, 13);
  }

  // ----- Properties of getActualMaximum and isLastWeek -----

  /** The last day of a month is the Gregorian month length. */
  lemma ActualMaximumMonthDay(t: Time)
    requires 0 <= t.month < 12
    ensures t.GetActualMaximum(MONTH_DAY) == Ok(Gregorian.DaysInMonth(t.year, t.month + 1))
  {
    RemZero(t.year);
  }

  /** The last day of a year, counted from 0, is one less than the year's length. */
  lemma ActualMaximumYearDay(t: Time)
    ensures t.GetActualMaximum(YEAR_DAY)
      == Ok(Gregorian.DayNumber(t.year + 1, 1, 1) - Gregorian.DayNumber(t.year, 1, 1) - 1)
    ensures t.GetActualMaximum(YEAR_DAY) == Ok(if Gregorian.GregorianLeap(t.year) then 365 else 364)
  {
    RemZero(t.year);
    Gregorian.YearGap(t.year);
  }

  /**
   * `isLastWeek(time)`: whether the date a week later lies in another month. The copy and
   * `plusDays` build Joda values that refuse an invalid date, hour or minute (`None`).
   */
  method IsLastWeek(time: Time) returns (r: Option<bool>)
    ensures r.Some? <==>
      (Gregorian.ValidDate(Gregorian.Date(time.year, time.month + 1, time.monthDay))
      && 0 <= time.hour < 24 && 0 <= time.minute < 60)
    ensures r.Some? ==> (r.value <==> time.monthDay + 7 > Gregorian.DaysInMonth(time.year, time.month + 1))
  {
    var dt := Gregorian.Date(time.year, time.month + 1, time.monthDay);
    if !(Gregorian.ValidDate(dt) && 0 <= time.hour < 24 && 0 <= time.minute < 60) {
      return None;
    }
    var nextWeek := PlusDays(Gregorian.DateNumber(dt), 7);
    var w := WeekLater(dt);
    Gregorian.DateNumberInjective(nextWeek, w);
    return Some(nextWeek.month - 1 != time.month);
  }

  /** The date a week after a valid date: in the same month exactly when the month has 7 more days. */
  lemma WeekLater(dt: Gregorian.Date) returns (w: Gregorian.Date)
    requires Gregorian.ValidDate(dt)
    ensures Gregorian.ValidDate(w) && Gregorian.DateNumber(w) == Gregorian.DateNumber(dt) + 7
    ensures w.month == dt.month <==> dt.day + 7 <= Gregorian.DaysInMonth(dt.year, dt.month)
  {
    var len := Gregorian.DaysInMonth(dt.year, dt.month);
    if dt.day + 7 <= len {
      w := Gregorian.Date(dt.year, dt.month, dt.day + 7);
    } else {
      w := WeekIntoNextMonth(dt);
    }
  }

  lemma WeekIntoNextMonth(dt: Gregorian.Date) returns (w: Gregorian.Date)
    requires Gregorian.ValidDate(dt) && dt.day + 7 > Gregorian.DaysInMonth(dt.year, dt.month)
    ensures Gregorian.ValidDate(w) && Gregorian.DateNumber(w) == Gregorian.DateNumber(dt) + 7
    ensures w.month != dt.month
  {
    var y, m := dt.year, dt.month;
    var len := Gregorian.DaysInMonth(y, m);
    Gregorian.MonthGap(y, m);
    w := if m < 12 then Gregorian.Date(y, m + 1, dt.day + 7 - len) else Gregorian.Date(y + 1, 1, dt.day + 7 - len);
    Gregorian.DayShift(w.year, w.month, w.day);
    Gregorian.DayShift(y, m, dt.day);
  }


}
