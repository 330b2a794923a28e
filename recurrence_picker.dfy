/**
 * The rule side of the recurrence picker (`RecurrencePickerDialog`): the check that a
 * parsed RFC 5545 RECUR value (section 3.3.10) is one the dialog can show, the copy of the
 * dialog's model into the rule record, the clamping text watcher of the numeric fields and
 * the end-count clamp of the end spinner.
 *
 * The rule record is the calendar library's `EventRecurrence`; only the fields the dialog
 * reads or writes are modelled, with the library's constants for the frequencies and the
 * weekdays.
 */
module RecurrencePicker {
  import opened Wrappers
  import opened JavaLang
  import Time

  // ----- `EventRecurrence` constants -----

  const DAILY: int := 4
  const WEEKLY: int := 5
  const MONTHLY: int := 6
  const YEARLY: int := 7

  /** `SU`, `MO`, ..., `SA`: one bit per weekday, Sunday first. */
  const WEEKDAY_BITS: seq<int> := [0x10000, 0x20000, 0x40000, 0x80000, 0x100000, 0x200000, 0x400000]

  // ----- `RecurrenceModel` constants -----

  const FREQ_DAILY: int := 0
  const FREQ_WEEKLY: int := 1
  const FREQ_MONTHLY: int := 2
  const FREQ_YEARLY: int := 3

  const END_NEVER: int := 0
  const END_BY_DATE: int := 1
  const END_BY_COUNT: int := 2

  const MONTHLY_BY_DATE: int := 0
  const MONTHLY_BY_NTH_DAY_OF_WEEK: int := 1

  const STATE_NO_RECURRENCE: int := 0
  const STATE_RECURRENCE: int := 1

  const COUNT_MAX: int := 999
  const COUNT_DEFAULT: int := 5

  /** `mFreqModelToEventRecurrence`, indexed by the model's frequency. */
  const FREQ_MODEL_TO_EVENT_RECURRENCE: seq<int> := [DAILY, WEEKLY, MONTHLY, YEARLY]

  /** `EventRecurrence.timeDay2Day`: a `Time` weekday (0 = Sunday) to its weekday bit. */
  function TimeDay2Day(day: int): (r: int)
    requires 0 <= day < 7
    ensures r > 0
  {
    WEEKDAY_BITS[day]
  }

  /**
   * The dialog's `RecurrenceModel`. `endDateUtc` stands for `endDate`: `None` when it is
   * `null`, otherwise the text its `format2445()` gives once it is switched to UTC.
   */
  datatype RecurrenceModel = RecurrenceModel(
    recurrenceState: int,
    freq: int,
    interval: int,
    end: int,
    endDateUtc: Option<string>,
    endCount: int,
    weeklyByDayOfWeek: seq<bool>,
    monthlyRepeat: int,
    monthlyByMonthDay: int,
    monthlyByDayOfWeek: int,
    monthlyByNthDayOfWeek: int)

  /**
   * What the dialog keeps true of its model: a frequency that indexes the frequency table,
   * the seven-entry weekday array it allocates, and a weekday taken from a `Time`.
   */
  predicate ModelInRange(m: RecurrenceModel) {
    0 <= m.freq < 4 && |m.weeklyByDayOfWeek| == 7 && 0 <= m.monthlyByDayOfWeek < 7
  }

  /** The exceptions `copyModelToEventRecurrence` raises. */
  datatype Failure =
    | NoRecurrence        // STATE_NO_RECURRENCE
    | EndDateMissing      // END_BY_DATE without an end date
    | BadCount(count: int) // END_BY_COUNT with a count that is not positive
    | CannotHandle        // the generated rule fails canHandleRecurrenceRule

  /** The fields of an `EventRecurrence` the dialog works with, as one value (`None` is `null`). */
  datatype Rule = Rule(
    startDate: Time.Time?,
    freq: int,
    until: Option<string>,
    count: int,
    interval: int,
    byday: Option<seq<int>>,
    bydayNum: Option<seq<int>>,
    bydayCount: int,
    bymonthday: Option<seq<int>>,
    bymonthdayCount: int)

  function Contents(a: array?<int>): Option<seq<int>>
    reads a
  {
    if a == null then None else Some(a[..])
  }

  class EventRecurrence {
    var startDate: Time.Time?
    var freq: int
    var until: Option<string>
    var count: int
    var interval: int
    var byday: array?<int>
    var bydayNum: array?<int>
    var bydayCount: int
    var bymonthday: array?<int>
    var bymonthdayCount: int

    function Value(): Rule
      reads this, byday, bydayNum, bymonthday
    {
      Rule(startDate, freq, until, count, interval,
        Contents(byday), Contents(bydayNum), bydayCount, Contents(bymonthday), bymonthdayCount)
    }

    /** A new rule: no start date, every number 0 and every array `null`. */
    constructor()
      ensures Value() == Rule(null, 0, None, 0, 0, None, None, 0, None, 0)
    {
      startDate, freq, until, count, interval := null, 0, None, 0, 0;
      byday, bydayNum, bydayCount, bymonthday, bymonthdayCount := null, null, 0, null, 0;
    }
  }

  // ----- canHandleRecurrenceRule -----

  /** `TextUtils.isEmpty`: `null` or the empty string. */
  predicate IsEmpty(s: Option<string>) {
    s.None? || |s.value| == 0
  }

  predicate IsFreqHandled(freq: int) {
    freq == DAILY || freq == MONTHLY || freq == YEARLY || freq == WEEKLY
  }

  /** The rule can be scanned: `bydayNum` holds at least `bydayCount` entries when it is read at all. */
  predicate RuleReadable(v: Rule) {
    v.bydayCount <= 0 || (v.bydayNum.Some? && v.bydayCount <= |v.bydayNum.value|)
  }

  /** The `bydayNum` entries the scan looks at. */
  function ByDayNums(v: Rule): (s: seq<int>)
    requires RuleReadable(v)
    ensures |s| == if v.bydayCount <= 0 then 0 else v.bydayCount
  {
    if v.bydayCount <= 0 then [] else v.bydayNum.value[..v.bydayCount]
  }

  /** How many entries are positive. */
  function PositiveCount(s: seq<int>): nat {
    if |s| == 0 then 0 else PositiveCount(s[..|s| - 1]) + (if s[|s| - 1] > 0 then 1 else 0)
  }

  /**
   * `canHandleRecurrenceRule`, on the value of the rule. The `bydayNum` entries are read
   * only after the frequency and end checks pass, and then they must be readable.
   */
  predicate CanHandle(v: Rule) {
    IsFreqHandled(v.freq)
    && !(v.count > 0 && !IsEmpty(v.until))
    && RuleReadable(v)
    && var numOfByDayNum := PositiveCount(ByDayNums(v));
    numOfByDayNum <= 1
    && !(numOfByDayNum > 0 && v.freq != MONTHLY)
    && v.bymonthdayCount <= 1
    && (v.freq == MONTHLY ==> v.bydayCount <= 1 && !(v.bydayCount > 0 && v.bymonthdayCount > 0))
  }

  /** `canHandleRecurrenceRule(er)`: the early returns and the counting loop of the source. */
  method CanHandleRecurrenceRule(er: EventRecurrence) returns (r: bool)
    requires IsFreqHandled(er.freq) && !(er.count > 0 && !IsEmpty(er.until)) ==> RuleReadable(er.Value())
    ensures r == CanHandle(er.Value())
  {
    if !IsFreqHandled(er.freq) {
      return false;
    }
    if er.count > 0 && !IsEmpty(er.until) {
      return false;
    }
    ghost var nums := ByDayNums(er.Value());
    var numOfByDayNum := 0;
    var i := 0;
    while i < er.bydayCount
      invariant 0 <= i <= |nums|
      invariant numOfByDayNum == PositiveCount(nums[..i])
    {
      if er.bydayNum[i] > 0 {
        numOfByDayNum := numOfByDayNum + 1;
      }
      assert nums[..i + 1][..i] == nums[..i];
      i := i + 1;
    }
    assert nums[..i] == nums;
    if numOfByDayNum > 1 {
      return false;
    }
    if numOfByDayNum > 0 && er.freq != MONTHLY {
      return false;
    }
    if er.bymonthdayCount > 1 {
      return false;
    }
    if er.freq == MONTHLY {
      if er.bydayCount > 1 {
        return false;
      }
      if er.bydayCount > 0 && er.bymonthdayCount > 0 {
        return false;
      }
    }
    return true;
  }

  lemma {:induction false} PositiveCountZero(s: seq<int>)
    ensures PositiveCount(s) == 0 <==> forall i :: 0 <= i < |s| ==> s[i] <= 0
  {
    if |s| > 0 {
      PositiveCountZero(s[..|s| - 1]);
      assert forall i :: 0 <= i < |s| - 1 ==> s[..|s| - 1][i] == s[i];
    }
  }

  lemma {:induction false} PositiveCountAtMostOne(s: seq<int>)
    ensures PositiveCount(s) <= 1 <==>
      (forall i, j :: 0 <= i < |s| && 0 <= j < |s| && s[i] > 0 && s[j] > 0 ==> i == j)
  {
    if |s| > 0 {
      var t := s[..|s| - 1];
      PositiveCountAtMostOne(t);
      PositiveCountZero(t);
      assert forall i :: 0 <= i < |t| ==> t[i] == s[i];
    }
  }

  /**
   * What `canHandleRecurrenceRule` accepts, stated on the entries themselves: one of the
   * four frequencies, not both a count and an until, at most one positive `bydayNum` and
   * that one only in a monthly rule, at most one month day, and for a monthly rule at most
   * one weekday and not a weekday together with a month day.
   */
  lemma CanHandleMeaning(v: Rule)
    requires RuleReadable(v)
    ensures var nums := ByDayNums(v);
      CanHandle(v) <==>
        IsFreqHandled(v.freq)
        && !(v.count > 0 && !IsEmpty(v.until))
        && (forall i, j :: 0 <= i < |nums| && 0 <= j < |nums| && nums[i] > 0 && nums[j] > 0 ==> i == j)
        && (forall i :: 0 <= i < |nums| && nums[i] > 0 ==> v.freq == MONTHLY)
        && v.bymonthdayCount <= 1
        && (v.freq == MONTHLY ==> v.bydayCount <= 1 && !(v.bydayCount > 0 && v.bymonthdayCount > 0))
  {
    PositiveCountAtMostOne(ByDayNums(v));
    PositiveCountZero(ByDayNums(v));
  }

  // ----- copyModelToEventRecurrence -----

  /** The bits of the checked weekdays from `i` on, in ascending weekday order. */
  function ChecksFrom(w: seq<bool>, i: nat): seq<int>
    requires i <= |w| <= 7
    decreases |w| - i
  {
    if i == |w| then [] else if w[i] then [TimeDay2Day(i)] + ChecksFrom(w, i + 1) else ChecksFrom(w, i + 1)
  }

  function Zeros(n: nat): (s: seq<int>)
    ensures |s| == n
  {
    seq(n, _ => 0)
  }

  lemma ZerosStep(n: nat)
    ensures Zeros(n + 1) == [0] + Zeros(n)
  {
  }

  lemma UpdateSuffix(s: seq<int>, j: int, x: int)
    requires 0 <= j < |s|
    ensures s[j := x][j..] == [x] + s[j + 1..]
  {
  }

  /** The rule after the start date, the frequency and the interval are written. */
  function CopyHead(m: RecurrenceModel, v: Rule, time: Time.Time?): Rule
    requires 0 <= m.freq < 4
  {
    v.(startDate := if v.startDate == null then time else v.startDate,
       freq := FREQ_MODEL_TO_EVENT_RECURRENCE[m.freq],
       interval := if m.interval <= 1 then 0 else m.interval)
  }

  /** The `switch (model.end)` of the copy: the failure it raises, if any, and the rule after it. */
  function CopyEnd(m: RecurrenceModel, v: Rule): (Option<Failure>, Rule) {
    if m.end == END_BY_DATE then
      if m.endDateUtc.Some? then (None, v.(until := m.endDateUtc, count := 0))
      else (Some(EndDateMissing), v)
    else if m.end == END_BY_COUNT then
      var v' := v.(count := m.endCount, until := None);
      if v'.count <= 0 then (Some(BadCount(v'.count)), v') else (None, v')
    else (None, v.(count := 0, until := None))
  }

  /**
   * The `switch (model.freq)` of the copy, after both counts are reset; `timeMonthDay` is
   * the month day of the `time` argument, `None` when it is `null`.
   */
  function CopyByRules(m: RecurrenceModel, v: Rule, timeMonthDay: Option<int>): Rule
    requires ModelInRange(m)
  {
    var v0 := v.(bydayCount := 0, bymonthdayCount := 0);
    if m.freq == FREQ_MONTHLY then
      if m.monthlyRepeat == MONTHLY_BY_DATE then
        if m.monthlyByMonthDay > 0 then v0.(bymonthday := Some([m.monthlyByMonthDay]), bymonthdayCount := 1)
        else if timeMonthDay.Some? && timeMonthDay.value > 0 then
          v0.(bymonthday := Some([timeMonthDay.value]), bymonthdayCount := 1)
        else v0
      else if m.monthlyRepeat == MONTHLY_BY_NTH_DAY_OF_WEEK then
        v0.(byday := Some([TimeDay2Day(m.monthlyByDayOfWeek)]), bydayNum := Some([m.monthlyByNthDayOfWeek]), bydayCount := 1)
      else v0
    else if m.freq == FREQ_WEEKLY then
      var days := ChecksFrom(m.weeklyByDayOfWeek, 0);
      if 0 < |days| || v0.byday.None? || v0.bydayNum.None? then
        v0.(byday := Some(days), bydayNum := Some(Zeros(|days|)), bydayCount := |days|)
      else v0
    else v0
  }

  /** Everything `copyModelToEventRecurrence` does before its final check. */
  function CopySpec(m: RecurrenceModel, v: Rule, time: Time.Time?, timeMonthDay: Option<int>): (Option<Failure>, Rule)
    requires ModelInRange(m)
  {
    if m.recurrenceState == STATE_NO_RECURRENCE then (Some(NoRecurrence), v)
    else
      var (e, v') := CopyEnd(m, CopyHead(m, v, time));
      if e.Some? then (e, v') else (None, CopyByRules(m, v', timeMonthDay))
  }

  function MonthDayOf(time: Time.Time?): Option<int>
    reads time
  {
    if time == null then None else Some(time.monthDay)
  }

  /**
   * `copyModelToEventRecurrence(model, er, time)`: writes the rule, raising the failures of
   * `CopySpec`; the final check can never fail (`CopyIsHandled`).
   */
  method CopyModelToEventRecurrence(model: RecurrenceModel, er: EventRecurrence, time: Time.Time?)
    returns (err: Option<Failure>)
    requires ModelInRange(model)
    modifies er
    ensures var (e, v) := CopySpec(model, old(er.Value()), time, MonthDayOf(time));
      er.Value() == v
      && err == (if e.Some? then e else if RuleReadable(v) && CanHandle(v) then None else Some(CannotHandle))
    ensures err != Some(CannotHandle)
  {
    if model.recurrenceState == STATE_NO_RECURRENCE {
      return Some(NoRecurrence);
    }
    WriteHead(model, er, time);
    err := WriteEnd(model, er);
    if err.Some? {
      return;
    }
    WriteByRules(model, er, time);
    CopyIsHandled(model, old(er.Value()), time, MonthDayOf(time));
    var ok := CanHandleRecurrenceRule(er);
    if !ok {
      return Some(CannotHandle);
    }
  }

  /** The start date (only when there is none), the frequency and the interval. */
  method WriteHead(model: RecurrenceModel, er: EventRecurrence, time: Time.Time?)
    requires 0 <= model.freq < 4
    modifies er
    ensures er.Value() == CopyHead(model, old(er.Value()), time)
  {
    if er.startDate == null {
      er.startDate := time;
    }
    er.freq := FREQ_MODEL_TO_EVENT_RECURRENCE[model.freq];
    if model.interval <= 1 {
      er.interval := 0;
    } else {
      er.interval := model.interval;
    }
  }

  /** The end of the rule: an until date, a count, or neither. */
  method WriteEnd(model: RecurrenceModel, er: EventRecurrence) returns (err: Option<Failure>)
    modifies er
    ensures (err, er.Value()) == CopyEnd(model, old(er.Value()))
  {
    err := None;
    if model.end == END_BY_DATE {
      if model.endDateUtc.Some? {
        er.until := model.endDateUtc;
        er.count := 0;
      } else {
        err := Some(EndDateMissing);
      }
    } else if model.end == END_BY_COUNT {
      er.count := model.endCount;
      er.until := None;
      if er.count <= 0 {
        err := Some(BadCount(er.count));
      }
    } else {
      er.count := 0;
      er.until := None;
    }
  }

  /** Both counts reset, then the weekday or month-day part of a monthly or weekly rule. */
  method WriteByRules(model: RecurrenceModel, er: EventRecurrence, time: Time.Time?)
    requires ModelInRange(model)
    modifies er
    ensures er.Value() == CopyByRules(model, old(er.Value()), MonthDayOf(time))
  {
    er.bydayCount := 0;
    er.bymonthdayCount := 0;
    if model.freq == FREQ_MONTHLY {
      if model.monthlyRepeat == MONTHLY_BY_DATE {
        if model.monthlyByMonthDay > 0 {
          SetMonthDay(er, model.monthlyByMonthDay);
        } else if time != null && time.monthDay > 0 {
          SetMonthDay(er, time.monthDay);
        }
      } else if model.monthlyRepeat == MONTHLY_BY_NTH_DAY_OF_WEEK {
        SetNthDay(er, TimeDay2Day(model.monthlyByDayOfWeek), model.monthlyByNthDayOfWeek);
      }
    } else if model.freq == FREQ_WEEKLY {
      WeeklyByDay(model.weeklyByDayOfWeek, er);
    }
  }

  /** `bymonthday = new int[1]; bymonthday[0] = monthDay; bymonthdayCount = 1;` */
  method SetMonthDay(er: EventRecurrence, monthDay: int)
    modifies er
    ensures er.Value() == old(er.Value()).(bymonthday := Some([monthDay]), bymonthdayCount := 1)
  {
    var a := new int[1](_ => 0);
    a[0] := monthDay;
    er.bymonthday := a;
    er.bymonthdayCount := 1;
    assert a[..] == [monthDay];
    assert er.byday != a && er.bydayNum != a;
  }

  /** The nth-weekday case: one-entry `byday` and `bydayNum` arrays and a count of 1. */
  method SetNthDay(er: EventRecurrence, day: int, nth: int)
    modifies er
    ensures er.Value() == old(er.Value()).(byday := Some([day]), bydayNum := Some([nth]), bydayCount := 1)
  {
    var count := 1;
    var days := new int[count](_ => 0);
    var nums := new int[count](_ => 0);
    er.byday, er.bydayNum := days, nums;
    er.bydayCount := count;
    days[0] := day;
    nums[0] := nth;
    assert days[..] == [day] && nums[..] == [nth];
    assert er.bymonthday != days && er.bymonthday != nums;
  }

  /** The `FREQ_WEEKLY` case of the copy: count the checked days, then fill both arrays downwards. */
  method WeeklyByDay(w: seq<bool>, er: EventRecurrence)
    requires |w| == 7 && er.bydayCount == 0
    modifies er
    ensures var days := ChecksFrom(w, 0);
      var v := old(er.Value());
      er.Value() == if 0 < |days| || v.byday.None? || v.bydayNum.None? then
        v.(byday := Some(days), bydayNum := Some(Zeros(|days|)), bydayCount := |days|)
      else v
  {
    var count := CountChecked(w);
    var days, nums := er.byday, er.bydayNum;
    if er.bydayCount < count || days == null || nums == null {
      days := new int[count](_ => 0);
      nums := new int[count](_ => 0);
      er.byday, er.bydayNum := days, nums;
      er.bydayCount := count;
      if count > 0 {
        FillDescending(w, days, nums);
      } else {
        assert days[..] == ChecksFrom(w, 0) && nums[..] == Zeros(0);
      }
      assert er.bymonthday != days && er.bymonthday != nums;
    } else {
      er.bydayCount := count;
    }
  }

  /** The first loop: how many weekdays are checked. */
  method CountChecked(w: seq<bool>) returns (count: int)
    requires |w| == 7
    ensures count == |ChecksFrom(w, 0)|
  {
    count := 0;
    var i := 0;
    while i < 7
      invariant 0 <= i <= 7
      invariant count + |ChecksFrom(w, i)| == |ChecksFrom(w, 0)|
    {
      if w[i] {
        count := count + 1;
      }
      i := i + 1;
    }
  }

  /** The second loop, from Saturday down to Sunday: each checked day takes the last free slot. */
  method FillDescending(w: seq<bool>, days: array<int>, nums: array<int>)
    requires |w| == 7 && days != nums
    requires days.Length == |ChecksFrom(w, 0)| && nums.Length == days.Length
    modifies days, nums
    ensures days[..] == ChecksFrom(w, 0) && nums[..] == Zeros(days.Length)
  {
    var count := days.Length;
    var i := 7;
    while i > 0
      invariant 0 <= i <= 7
      invariant 0 <= count && count + |ChecksFrom(w, i)| == days.Length
      invariant days[..][count..] == ChecksFrom(w, i)
      invariant nums[..][count..] == Zeros(days.Length - count)
    {
      var day := i - 1;
      if w[day] {
        ChecksFromShorter(w, day);
        ChecksFromShrinks(w, 0, day);
        count := count - 1;
        UpdateSuffix(nums[..], count, 0);
        ZerosStep(days.Length - count - 1);
        UpdateSuffix(days[..], count, TimeDay2Day(day));
        Place(days, nums, count, TimeDay2Day(day));
      } else {
        ChecksFromSkip(w, day);
      }
      i := day;
    }
  }

  /** `bydayNum[k] = 0; byday[k] = day;` */
  method Place(days: array<int>, nums: array<int>, k: int, day: int)
    requires days != nums && 0 <= k < days.Length && k < nums.Length
    modifies days, nums
    ensures days[..] == old(days[..])[k := day] && nums[..] == old(nums[..])[k := 0]
  {
    nums[k] := 0;
    days[k] := day;
  }

  lemma {:induction false} ChecksFromShrinks(w: seq<bool>, i: nat, j: nat)
    requires i <= j <= |w| <= 7
    ensures |ChecksFrom(w, j)| <= |ChecksFrom(w, i)|
    decreases j - i
  {
    if i < j {
      ChecksFromShrinks(w, i + 1, j);
    }
  }

  lemma ChecksFromShorter(w: seq<bool>, i: nat)
    requires i < |w| <= 7 && w[i]
    ensures ChecksFrom(w, i) == [TimeDay2Day(i)] + ChecksFrom(w, i + 1)
  {
  }

  lemma ChecksFromSkip(w: seq<bool>, i: nat)
    requires i < |w| <= 7 && !w[i]
    ensures ChecksFrom(w, i) == ChecksFrom(w, i + 1)
  {
  }

  /**
   * The rule the copy builds always passes `canHandleRecurrenceRule`, so the copy's own
   * final check never raises.
   */
  lemma CopyIsHandled(m: RecurrenceModel, v: Rule, time: Time.Time?, timeMonthDay: Option<int>)
    requires ModelInRange(m)
    ensures var (e, v') := CopySpec(m, v, time, timeMonthDay);
      e.None? ==> RuleReadable(v') && CanHandle(v')
  {
    if m.recurrenceState != STATE_NO_RECURRENCE {
      var h := CopyHead(m, v, time);
      var (e, v1) := CopyEnd(m, h);
      if e.None? {
        assert v1.freq == FREQ_MODEL_TO_EVENT_RECURRENCE[m.freq];
        assert !(v1.count > 0 && !IsEmpty(v1.until));
        ByRulesHandled(m, v1, timeMonthDay);
      }
    }
  }

  lemma ByRulesHandled(m: RecurrenceModel, v: Rule, timeMonthDay: Option<int>)
    requires ModelInRange(m) && v.freq == FREQ_MODEL_TO_EVENT_RECURRENCE[m.freq]
    requires !(v.count > 0 && !IsEmpty(v.until))
    ensures var r := CopyByRules(m, v, timeMonthDay); RuleReadable(r) && CanHandle(r)
  {
    var r := CopyByRules(m, v, timeMonthDay);
    if m.freq == FREQ_WEEKLY {
      WeeklyHandled(m, v);
    } else if m.freq == FREQ_MONTHLY && m.monthlyRepeat == MONTHLY_BY_NTH_DAY_OF_WEEK {
      assert ByDayNums(r) == [m.monthlyByNthDayOfWeek];
      assert ByDayNums(r)[..0] == [];
    } else {
      assert ByDayNums(r) == [];
    }
  }

  lemma WeeklyHandled(m: RecurrenceModel, v: Rule)
    requires ModelInRange(m) && m.freq == FREQ_WEEKLY && v.freq == WEEKLY
    requires !(v.count > 0 && !IsEmpty(v.until))
    ensures var r := CopyByRules(m, v, None); RuleReadable(r) && CanHandle(r)
  {
    var r := CopyByRules(m, v, None);
    var nums := ByDayNums(r);
    assert forall k :: 0 <= k < |nums| ==> nums[k] == 0;
    PositiveCountZero(nums);
  }

  // ----- What the copy writes -----

  lemma DaysIncreasing(a: int, b: int)
    requires 0 <= a < b < 7
    ensures TimeDay2Day(a) < TimeDay2Day(b)
  {
  }

  /** The checked days come out strictly ascending, and a day is there exactly when it is checked. */
  lemma {:induction false} ChecksFromOrdered(w: seq<bool>, i: nat)
    requires i <= |w| <= 7
    ensures var c := ChecksFrom(w, i);
      (forall a, b :: 0 <= a < b < |c| ==> c[a] < c[b])
      && (forall k :: i <= k < |w| ==> (w[k] <==> TimeDay2Day(k) in c))
      && (forall x :: x in c ==> exists k :: i <= k < |w| && w[k] && x == TimeDay2Day(k))
    decreases |w| - i
  {
    if i < |w| {
      ChecksFromOrdered(w, i + 1);
      var c := ChecksFrom(w, i);
      var rest := ChecksFrom(w, i + 1);
      forall k | i < k < |w|
        ensures TimeDay2Day(k) != TimeDay2Day(i)
      {
        DaysIncreasing(i, k);
      }
      if w[i] {
        assert c == [TimeDay2Day(i)] + rest;
        forall x | x in rest
          ensures TimeDay2Day(i) < x
        {
          var k :| i + 1 <= k < |w| && w[k] && x == TimeDay2Day(k);
          DaysIncreasing(i, k);
        }
        forall a, b | 0 <= a < b < |c|
          ensures c[a] < c[b]
        {
          assert c[b] == rest[b - 1] && rest[b - 1] in rest;
          if a > 0 {
            assert c[a] == rest[a - 1];
          }
        }
      }
    }
  }

  /**
   * A weekly rule holds the checked weekdays of the model, once each and in ascending
   * weekday order, with every `bydayNum` 0.
   */
  lemma CopyWeekly(m: RecurrenceModel, v: Rule, time: Time.Time?, timeMonthDay: Option<int>)
    requires ModelInRange(m) && m.freq == FREQ_WEEKLY
    ensures var (e, v') := CopySpec(m, v, time, timeMonthDay);
      e.None? ==>
        v'.freq == WEEKLY && v'.byday.Some? && v'.bydayNum.Some?
        && 0 <= v'.bydayCount <= |v'.byday.value| && v'.bydayCount <= |v'.bydayNum.value|
        && (forall a, b :: 0 <= a < b < v'.bydayCount ==> v'.byday.value[a] < v'.byday.value[b])
        && (forall k :: 0 <= k < 7 ==> (m.weeklyByDayOfWeek[k] <==> TimeDay2Day(k) in v'.byday.value[..v'.bydayCount]))
        && (forall a :: 0 <= a < v'.bydayCount ==> v'.bydayNum.value[a] == 0)
  {
    var (e, v') := CopySpec(m, v, time, timeMonthDay);
    if e.None? {
      var days := ChecksFrom(m.weeklyByDayOfWeek, 0);
      ChecksFromOrdered(m.weeklyByDayOfWeek, 0);
      assert v'.byday.value[..v'.bydayCount] == days;
    }
  }

  /**
   * The start date is only filled in, the interval is 0 unless above 1, and the end is an
   * until date with count 0, a positive count with no until, or neither; a missing end date
   * and a count that is not positive raise, and so does a model without recurrence, before
   * anything is written.
   */
  lemma CopyEnds(m: RecurrenceModel, v: Rule, time: Time.Time?, timeMonthDay: Option<int>)
    requires ModelInRange(m)
    ensures var (e, v') := CopySpec(m, v, time, timeMonthDay);
      (m.recurrenceState == STATE_NO_RECURRENCE ==> e == Some(NoRecurrence) && v' == v)
      && (m.recurrenceState != STATE_NO_RECURRENCE ==>
            v'.startDate == (if v.startDate == null then time else v.startDate)
            && v'.freq == FREQ_MODEL_TO_EVENT_RECURRENCE[m.freq]
            && v'.interval == (if m.interval <= 1 then 0 else m.interval)
            && (m.end == END_BY_DATE ==>
                  (e.None? <==> m.endDateUtc.Some?) && (e.Some? ==> e == Some(EndDateMissing))
                  && (e.None? ==> v'.until == m.endDateUtc && v'.count == 0))
            && (m.end == END_BY_COUNT ==>
                  e == (if m.endCount <= 0 then Some(BadCount(m.endCount)) else None)
                  && v'.until.None? && v'.count == m.endCount)
            && (m.end != END_BY_DATE && m.end != END_BY_COUNT ==>
                  e.None? && v'.until.None? && v'.count == 0))
  {
  }

  // ----- The numeric fields -----

  /** A `MinMaxTextWatcher`: the bounds and the default of one numeric text field. */
  datatype MinMaxTextWatcher = MinMaxTextWatcher(min: int, default: int, max: int)

  /** What `afterTextChanged` leaves: the field's text and the value passed to `onChange`. */
  datatype Watched = Watched(text: string, value: int)

  /**
   * `afterTextChanged(s)`: the parsed value, or the default when the text does not parse,
   * raised to the minimum or lowered to the maximum; a clamped value replaces the text.
   */
  function AfterTextChanged(tw: MinMaxTextWatcher, s: string): (r: Watched)
    ensures var parsed := ParseInt(s).UnwrapOr(tw.default);
      (parsed < tw.min ==> r.value == tw.min)
      && (tw.min <= parsed && parsed > tw.max ==> r.value == tw.max)
      && (tw.min <= parsed <= tw.max ==> r.value == parsed && r.text == s)
      && (r.text != s ==> r.text == IntToString(r.value))
  {
    var value := if ParseInt(s).Some? then ParseInt(s).value else tw.default;
    if value < tw.min then Watched(IntToString(tw.min), tw.min)
    else if value > tw.max then Watched(IntToString(tw.max), tw.max)
    else Watched(s, value)
  }

  /** The end-count field: between 1 and 300, 5 when the text is not a number. */
  const END_COUNT_WATCHER: MinMaxTextWatcher := MinMaxTextWatcher(1, COUNT_DEFAULT, 300)

  /** With ordered bounds the value lies between them, and a clamped text reads back as it. */
  lemma WatcherClamps(tw: MinMaxTextWatcher, s: string)
    requires tw.min <= tw.max && IsInt32(tw.min) && IsInt32(tw.max)
    ensures var r := AfterTextChanged(tw, s);
      tw.min <= r.value <= tw.max
      && (ParseInt(s).None? && tw.min <= tw.default <= tw.max ==> r.value == tw.default)
      && ParseInt(r.text) == (if r.text == s then ParseInt(s) else Some(r.value))
  {
    var r := AfterTextChanged(tw, s);
    if r.text != s {
      ParseIntToString(r.value);
    }
  }

  /**
   * `onItemSelected` on the end spinner: the chosen end, and for `END_BY_COUNT` the count
   * moved into 1..`COUNT_MAX`; other positions leave the model as it is.
   */
  function OnEndSelected(m: RecurrenceModel, position: int): (r: RecurrenceModel)
    ensures position == END_BY_COUNT ==> 1 <= r.endCount <= COUNT_MAX
    ensures position == END_BY_COUNT && 1 <= m.endCount <= COUNT_MAX ==> r.endCount == m.endCount
    ensures position == END_NEVER || position == END_BY_DATE || position == END_BY_COUNT ==> r.end == position
    ensures position != END_BY_COUNT ==> r == m.(end := r.end)
    ensures !(END_NEVER <= position <= END_BY_COUNT) ==> r == m
  {
    if position == END_NEVER then m.(end := END_NEVER)
    else if position == END_BY_DATE then m.(end := END_BY_DATE)
    else if position == END_BY_COUNT then
      var count := if m.endCount <= 1 then 1 else if m.endCount > COUNT_MAX then COUNT_MAX else m.endCount;
      m.(end := END_BY_COUNT, endCount := count)
    else m
  }

  /** Every count the end-count field lets through is left alone by the spinner's clamp. */
  lemma EndCountFieldWithinClamp(s: string, m: RecurrenceModel)
    ensures var v := AfterTextChanged(END_COUNT_WATCHER, s).value;
      1 <= v <= 300 && OnEndSelected(m.(endCount := v), END_BY_COUNT).endCount == v
  {
  }
}
