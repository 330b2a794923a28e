/**
 * The date value of the month view (`kr.common.Calendar`): a year, a month 1..12 and a
 * day 1..31, two display flags and a scheme colour. Equality, the text form and the order
 * look at the year, month and day only.
 */
module Calendar {
  import opened Wrappers
  import opened JavaLang

  datatype Calendar = Calendar(
    year: int,
    month: int,
    day: int,
    isCurrentMonth: bool,
    isCurrentDay: bool,
    schemeColor: int)

  /** `new Calendar()` followed by the three date setters. */
  function DateOf(year: int, month: int, day: int): (c: Calendar)
    ensures c.year == year && c.month == month && c.day == day
    ensures !c.isCurrentMonth && !c.isCurrentDay && c.schemeColor == 0
  {
    Calendar(year, month, day, false, false, 0)
  }

  /** `isSameMonth`: the same year and month. */
  predicate IsSameMonth(c: Calendar, other: Calendar) {
    c.year == other.year && c.month == other.month
  }

  /**
   * `equals`: another `Calendar` with the same year, month and day (an object is also
   * equal to itself, which the field test already covers); `null` is never equal.
   */
  predicate Equals(c: Calendar, o: Option<Calendar>) {
    o.Some? && o.value.year == c.year && o.value.month == c.month && o.value.day == c.day
  }

  /** A month or day below 10 gets a leading "0"; anything else prints as is. */
  function TwoDigit(n: int): string {
    if n < 10 then "0" + IntToString(n) else IntToString(n)
  }

  /** `toString`: the year followed by the month and the day in two digits each. */
  function ToString(c: Calendar): string {
    IntToString(c.year) + TwoDigit(c.month) + TwoDigit(c.day)
  }

  /** `compareTo`: `null` ranks below every date; otherwise the text forms are compared. */
  function CompareTo(c: Calendar, o: Option<Calendar>): int {
    if o.None? then 1 else CompareStrings(ToString(c), ToString(o.value))
  }

  /** The order of the calendar: by year, then month, then day. */
  function Chronological(a: Calendar, b: Calendar): int {
    if a.year != b.year then Sign(a.year - b.year)
    else if a.month != b.month then Sign(a.month - b.month)
    else Sign(a.day - b.day)
  }

  // ----- Properties -----

  /** Equality of calendars is an equivalence that ignores the flags and the colour. */
  lemma EqualsEquivalence(a: Calendar, b: Calendar, c: Calendar)
    ensures Equals(a, Some(a))
    ensures Equals(a, Some(b)) ==> Equals(b, Some(a))
    ensures Equals(a, Some(b)) && Equals(b, Some(c)) ==> Equals(a, Some(c))
    ensures Equals(a, Some(b)) <==> (a.year, a.month, a.day) == (b.year, b.month, b.day)
    ensures !Equals(a, None)
  {
  }

  /** Equal dates lie in the same month. */
  lemma EqualsSameMonth(a: Calendar, b: Calendar)
    ensures Equals(a, Some(b)) ==> IsSameMonth(a, b)
    ensures IsSameMonth(a, b) <==> IsSameMonth(b, a)
  {
  }

  lemma TwoDigitIsPad2(n: int)
    requires 0 <= n < 100
    ensures TwoDigit(n) == Pad2(n)
    ensures |TwoDigit(n)| == 2 && AllDigits(TwoDigit(n)) && DigitsValue(TwoDigit(n)) == n
  {
    Pad2Digits(n);
  }

  /** The text form is the year's digits followed by the month and the day, two digits each. */
  lemma ToStringFields(c: Calendar)
    requires 0 <= c.month < 100 && 0 <= c.day < 100
    ensures var s := ToString(c);
      |s| == |IntToString(c.year)| + 4 && s[..|s| - 4] == IntToString(c.year)
      && AllDigits(s[|s| - 4..]) && DigitsValue(s[|s| - 4..|s| - 2]) == c.month && DigitsValue(s[|s| - 2..]) == c.day
  {
    TwoDigitIsPad2(c.month);
    TwoDigitIsPad2(c.day);
    var s := ToString(c);
    var y := IntToString(c.year);
    assert s[|s| - 4..|s| - 2] == TwoDigit(c.month);
    assert s[|s| - 2..] == TwoDigit(c.day);
    assert s[|s| - 4..] == TwoDigit(c.month) + TwoDigit(c.day);
  }

  /** With months and days below 100, `compareTo` is 0 exactly for equal dates. */
  lemma CompareToConsistentWithEquals(a: Calendar, b: Calendar)
    requires 0 <= a.month < 100 && 0 <= a.day < 100 && 0 <= b.month < 100 && 0 <= b.day < 100
    ensures CompareTo(a, Some(b)) == 0 <==> Equals(a, Some(b))
  {
    CompareStringsZero(ToString(a), ToString(b));
    if ToString(a) == ToString(b) {
      ToStringFields(a);
      ToStringFields(b);
      IntToStringInjective(a.year, b.year);
    }
  }

  /** `null` ranks below everything, and the order of two dates is antisymmetric. */
  lemma CompareToNullAndAntisymmetry(a: Calendar, b: Calendar)
    ensures CompareTo(a, None) > 0
    ensures CompareTo(a, Some(b)) == -CompareTo(b, Some(a))
  {
    CompareStringsAntisymmetric(ToString(a), ToString(b));
  }

  /**
   * For non-negative years written with the same number of digits, and months and days
   * below 100, `compareTo` orders dates chronologically.
   */
  lemma CompareToChronological(a: Calendar, b: Calendar)
    requires 0 <= a.year && 0 <= b.year && |IntToString(a.year)| == |IntToString(b.year)|
    requires 0 <= a.month < 100 && 0 <= a.day < 100 && 0 <= b.month < 100 && 0 <= b.day < 100
    ensures Sign(CompareTo(a, Some(b))) == Chronological(a, b)
  {
    var ya, ma, da := ToStringBlocks(a);
    var yb, mb, db := ToStringBlocks(b);
    CompareDigitBlock(ya, ma + da, yb, mb + db);
    MonthDayBlocks(ma, da, mb, db);
  }

  /** The text form split into its three digit blocks. */
  lemma ToStringBlocks(c: Calendar) returns (y: string, m: string, d: string)
    requires 0 <= c.year && 0 <= c.month < 100 && 0 <= c.day < 100
    ensures ToString(c) == y + (m + d) && y == IntToString(c.year)
    ensures AllDigits(y) && AllDigits(m) && AllDigits(d) && |m| == 2 && |d| == 2
    ensures DigitsValue(y) == c.year && DigitsValue(m) == c.month && DigitsValue(d) == c.day
  {
    NatToStringDigits(c.year);
    TwoDigitIsPad2(c.month);
    TwoDigitIsPad2(c.day);
    y, m, d := IntToString(c.year), TwoDigit(c.month), TwoDigit(c.day);
  }

  /** The month and day blocks compare as the month, then the day. */
  lemma MonthDayBlocks(ma: string, da: string, mb: string, db: string)
    requires AllDigits(ma) && AllDigits(da) && AllDigits(mb) && AllDigits(db)
    requires |ma| == |mb| && |da| == |db|
    ensures Sign(CompareStrings(ma + da, mb + db))
      == if DigitsValue(ma) != DigitsValue(mb) then Sign(DigitsValue(ma) - DigitsValue(mb))
         else Sign(DigitsValue(da) - DigitsValue(db))
  {
    CompareDigitBlock(ma, da, mb, db);
    CompareDigits(da, db);
  }
}
