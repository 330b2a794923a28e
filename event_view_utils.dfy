/**
 * Reminder choice lists of the event editor (`EventViewUtils`): a list of minute (or
 * method) values and a parallel list of the labels shown for them, the label a number
 * of minutes is shown with, and the lookups into such a list.
 */
module EventViewUtils {
  import opened Wrappers
  import opened JavaLang

  const MINUTES_PER_HOUR := 60
  const MINUTES_PER_DAY := 24 * 60

  /**
   * The plural resource a reminder label is formatted with: `Nmins` (abbreviated) or
   * `Nminutes`, `Nhours` or `Ndays`.
   */
  datatype Unit = Mins | Minutes | Hours | Days

  /** A label: the resource and the number it is formatted with. */
  datatype ReminderLabel = ReminderLabel(unit: Unit, value: int)

  function Factor(u: Unit): int {
    match u
    case Mins => 1
    case Minutes => 1
    case Hours => MINUTES_PER_HOUR
    case Days => MINUTES_PER_DAY
  }

  /**
   * `constructReminderLabel`: whole days when the minutes are a multiple of a day, whole
   * hours when they are a multiple of an hour, and minutes otherwise. The text the
   * resources turn this into is not modelled.
   */
  function ConstructReminderLabel(minutes: int, abbrev: bool): (r: ReminderLabel)
    ensures r.unit == (if abbrev then Mins else Minutes) <==> minutes % MINUTES_PER_HOUR != 0
    ensures r.unit == Hours <==> minutes % MINUTES_PER_HOUR == 0 && minutes % MINUTES_PER_DAY != 0
    ensures r.unit == Days <==> minutes % MINUTES_PER_DAY == 0
    ensures r.value * Factor(r.unit) == minutes
  {
    HourDivision(minutes);
    DayDivision(minutes);
    DayIsHours(minutes);
    if JavaRem(minutes, MINUTES_PER_HOUR) != 0 then
      ReminderLabel(if abbrev then Mins else Minutes, minutes)
    else if JavaRem(minutes, MINUTES_PER_DAY) != 0 then
      ReminderLabel(Hours, JavaDiv(minutes, MINUTES_PER_HOUR))
    else
      ReminderLabel(Days, JavaDiv(minutes, MINUTES_PER_DAY))
  }

  /** Java's `%` by an hour is zero exactly on multiples, and then its `/` is exact. */
  lemma HourDivision(minutes: int)
    ensures JavaRem(minutes, MINUTES_PER_HOUR) == 0 <==> minutes % MINUTES_PER_HOUR == 0
    ensures minutes % MINUTES_PER_HOUR == 0 ==> JavaDiv(minutes, MINUTES_PER_HOUR) * MINUTES_PER_HOUR == minutes
  {
  }

  /** The same for a day. */
  lemma DayDivision(minutes: int)
    ensures JavaRem(minutes, MINUTES_PER_DAY) == 0 <==> minutes % MINUTES_PER_DAY == 0
    ensures minutes % MINUTES_PER_DAY == 0 ==> JavaDiv(minutes, MINUTES_PER_DAY) * MINUTES_PER_DAY == minutes
  {
  }

  /** A multiple of a day is a multiple of an hour. */
  lemma DayIsHours(minutes: int)
    ensures minutes % MINUTES_PER_DAY == 0 ==> minutes % MINUTES_PER_HOUR == 0
  {
    if minutes % MINUTES_PER_DAY == 0 {
      var q := minutes / MINUTES_PER_DAY;
      assert minutes == MINUTES_PER_HOUR * (24 * q);
    }
  }

  /** The unit chosen is the largest that divides the minutes exactly, so the value is the smallest exact one. */
  lemma LabelIsCoarsest(minutes: int, abbrev: bool)
    ensures var r := ConstructReminderLabel(minutes, abbrev);
      forall u: Unit :: Factor(u) > Factor(r.unit) ==> minutes % Factor(u) != 0
  {
    var r := ConstructReminderLabel(minutes, abbrev);
    forall u: Unit | Factor(u) > Factor(r.unit)
      ensures minutes % Factor(u) != 0
    {
      if r.unit == Hours {
        assert u == Days;
      } else {
        assert r.unit == Mins || r.unit == Minutes;
        assert u == Hours || u == Days;
      }
    }
  }

  /** `ArrayList.indexOf`: the first index holding `x`, or -1. */
  function IndexOf(values: seq<int>, x: int): (r: int)
    ensures -1 <= r < |values|
    ensures r == -1 <==> x !in values
    ensures r >= 0 ==> values[r] == x && x !in values[..r]
  {
    if |values| == 0 then -1
    else if values[0] == x then 0
    else
      var k := IndexOf(values[1..], x);
      assert values == [values[0]] + values[1..];
      if k == -1 then -1
      else
        assert values[..k + 1] == [values[0]] + values[1..][..k];
        k + 1
  }

  /**
   * `findMinutesInReminderList` and `findMethodInReminderList`: the first index of the
   * value, or 0 when it is not in the list.
   */
  function FindInReminderList(values: seq<int>, x: int): (r: int)
    ensures x in values ==> 0 <= r < |values| && values[r] == x && forall k :: 0 <= k < r ==> values[k] != x
    ensures x !in values ==> r == 0
  {
    var index := IndexOf(values, x);
    if index == -1 then 0
    else
      assert forall k :: 0 <= k < index ==> values[..index][k] == values[k];
      index
  }

  /** A list of values and the parallel list of their labels, as the editor keeps them. */
  class ParallelLists<L> {
    var values: seq<int>
    var labels: seq<L>

    predicate Valid()
      reads this
    {
      |values| == |labels|
    }

    constructor(values0: seq<int>, labels0: seq<L>)
      ensures values == values0 && labels == labels0
    {
      values, labels := values0, labels0;
    }
  }

  // ----- addMinutesToList -----

  /** The index before which a new value goes: the first value larger than it, or the end. */
  function InsertionIndex(values: seq<int>, minutes: int): (k: nat)
    ensures k <= |values|
    ensures forall j :: 0 <= j < k ==> values[j] <= minutes
    ensures k < |values| ==> minutes < values[k]
  {
    if |values| == 0 || minutes < values[0] then 0
    else 1 + InsertionIndex(values[1..], minutes)
  }

  /**
   * `addMinutesToList`: nothing happens when the minutes are already listed; otherwise
   * they go in before the first larger value (or at the end), and their label at the
   * same index.
   */
  method AddMinutesToList(lists: ParallelLists<ReminderLabel>, minutes: int)
    requires lists.Valid()
    modifies lists
    ensures lists.Valid()
    ensures minutes in old(lists.values) ==> lists.values == old(lists.values) && lists.labels == old(lists.labels)
    ensures minutes !in old(lists.values) ==>
      var k := InsertionIndex(old(lists.values), minutes);
      lists.values == old(lists.values)[..k] + [minutes] + old(lists.values)[k..]
      && lists.labels == old(lists.labels)[..k] + [ConstructReminderLabel(minutes, false)] + old(lists.labels)[k..]
  {
    var index := IndexOf(lists.values, minutes);
    if index != -1 {
      return;
    }
    var newLabel := ConstructReminderLabel(minutes, false);
    var len := |lists.values|;
    for i := 0 to len
      invariant forall j :: 0 <= j < i ==> lists.values[j] <= minutes
      invariant lists.values == old(lists.values) && lists.labels == old(lists.labels)
    {
      if minutes < lists.values[i] {
        ghost var k := InsertionIndex(lists.values, minutes);
        assert k == i;
        lists.values := lists.values[..i] + [minutes] + lists.values[i..];
        lists.labels := lists.labels[..i] + [newLabel] + lists.labels[i..];
        return;
      }
    }
    ghost var k := InsertionIndex(lists.values, minutes);
    assert k == len;
    lists.values := lists.values + [minutes];
    lists.labels := lists.labels[..len] + [newLabel] + lists.labels[len..];
    assert lists.values == old(lists.values)[..len] + [minutes] + old(lists.values)[len..];
  }

  predicate StrictlyAscending(s: seq<int>) {
    forall i, j :: 0 <= i < j < |s| ==> s[i] < s[j]
  }

  /** Inserting a new value at its insertion index keeps an ascending list ascending and adds just that value. */
  lemma InsertKeepsAscending(values: seq<int>, minutes: int)
    requires StrictlyAscending(values) && minutes !in values
    ensures var k := InsertionIndex(values, minutes);
      var r := values[..k] + [minutes] + values[k..];
      StrictlyAscending(r) && multiset(r) == multiset(values) + multiset{minutes}
  {
    var k := InsertionIndex(values, minutes);
    var r := values[..k] + [minutes] + values[k..];
    InsertedAt(values, k, minutes);
    forall i, j | 0 <= i < j < |r|
      ensures r[i] < r[j]
    {
      var a := if i < k then values[i] else if i == k then minutes else values[i - 1];
      var b := if j < k then values[j] else if j == k then minutes else values[j - 1];
      assert r[i] == a && r[j] == b;
      if i == k {
        assert minutes < values[k] && (k == j - 1 || values[k] < values[j - 1]);
      } else if j == k {
        assert values[i] <= minutes && values[i] != minutes;
      }
    }
  }

  /** Where each entry of a list with one value inserted at `k` comes from. */
  lemma InsertedAt(values: seq<int>, k: nat, x: int)
    requires k <= |values|
    ensures var r := values[..k] + [x] + values[k..];
      |r| == |values| + 1
      && (forall i :: 0 <= i < k ==> r[i] == values[i])
      && r[k] == x
      && (forall i :: k < i < |r| ==> r[i] == values[i - 1])
      && multiset(r) == multiset(values) + multiset{x}
  {
    assert values == values[..k] + values[k..];
  }

  // ----- reduceMethodList -----

  /**
   * The allowed methods as numbers: every comma-separated piece parsed in base 10, or
   * `None` as soon as one piece is not a number.
   */
  function ParseAll(pieces: seq<string>): (r: Option<seq<int>>)
    ensures r.Some? ==> |r.value| == |pieces|
  {
    if pieces == [] then Some([])
    else
      match ParseAll(pieces[..|pieces| - 1])
      case None => None
      case Some(prefix) =>
        match ParseInt(pieces[|pieces| - 1])
        case None => None
        case Some(v) => Some(prefix + [v])
  }

  /** Parsing fails exactly when some piece is not a number; otherwise piece `i` becomes value `i`. */
  lemma {:induction false} ParseAllMeaning(pieces: seq<string>)
    ensures ParseAll(pieces).None? <==> exists i :: 0 <= i < |pieces| && ParseInt(pieces[i]).None?
    ensures ParseAll(pieces).Some? ==> forall i :: 0 <= i < |pieces| ==> ParseInt(pieces[i]) == Some(ParseAll(pieces).value[i])
  {
    if pieces != [] {
      var init := pieces[..|pieces| - 1];
      ParseAllMeaning(init);
      assert forall i :: 0 <= i < |init| ==> init[i] == pieces[i];
    }
  }

  /** The values that survive: those the allowed list contains, in their order. */
  function KeepValues(vs: seq<int>, allowed: seq<int>): (r: seq<int>)
    ensures |r| <= |vs|
  {
    if vs == [] then []
    else (if vs[0] in allowed then [vs[0]] else []) + KeepValues(vs[1..], allowed)
  }

  /** The labels that survive: those whose value the allowed list contains. */
  function KeepLabels<L>(vs: seq<int>, ls: seq<L>, allowed: seq<int>): (r: seq<L>)
    requires |vs| == |ls|
    ensures |r| == |KeepValues(vs, allowed)|
  {
    if vs == [] then []
    else (if vs[0] in allowed then [ls[0]] else []) + KeepLabels(vs[1..], ls[1..], allowed)
  }

  /**
   * `reduceMethodList`: unless some allowed piece is not a number, drop every value the
   * allowed list lacks, together with its label.
   */
  method ReduceMethodList<L>(lists: ParallelLists<L>, allowedMethods: string)
    requires lists.Valid()
    modifies lists
    ensures lists.Valid()
    ensures ParseAll(Split(allowedMethods, ',')).None? ==>
      lists.values == old(lists.values) && lists.labels == old(lists.labels)
    ensures ParseAll(Split(allowedMethods, ',')).Some? ==>
      var allowed := ParseAll(Split(allowedMethods, ',')).value;
      lists.values == KeepValues(old(lists.values), allowed)
      && lists.labels == KeepLabels(old(lists.values), old(lists.labels), allowed)
  {
    var allowedStrings := Split(allowedMethods, ',');
    var ok, allowedValues := ParseAllowed(allowedStrings);
    if !ok {
      return;
    }
    RemoveDisallowed(lists, allowedValues);
  }

  /** The parsing loop of `reduceMethodList`, which stops at the first piece that is not a number. */
  method ParseAllowed(allowedStrings: seq<string>) returns (ok: bool, allowedValues: array<int>)
    ensures ok <==> ParseAll(allowedStrings).Some?
    ensures ok ==> allowedValues[..] == ParseAll(allowedStrings).value
  {
    allowedValues := new int[|allowedStrings|];
    for i := 0 to allowedValues.Length
      invariant ParseAll(allowedStrings[..i]) == Some(allowedValues[..i])
    {
      assert allowedStrings[..i + 1][..i] == allowedStrings[..i];
      var parsed := ParseInt(allowedStrings[i]);
      if parsed.None? {
        assert ParseAll(allowedStrings[..i + 1]).None?;
        NoneExtends(allowedStrings, i + 1);
        return false, allowedValues;
      }
      allowedValues[i] := parsed.value;
      assert allowedValues[..i + 1] == allowedValues[..i] + [parsed.value];
    }
    assert allowedStrings[..allowedValues.Length] == allowedStrings;
    assert allowedValues[..allowedValues.Length] == allowedValues[..];
    return true, allowedValues;
  }

  /** The removal loop of `reduceMethodList`: from the last value down, drop each one not allowed, and its label. */
  method RemoveDisallowed<L>(lists: ParallelLists<L>, allowedValues: array<int>)
    requires lists.Valid()
    modifies lists
    ensures lists.Valid()
    ensures lists.values == KeepValues(old(lists.values), allowedValues[..])
    ensures lists.labels == KeepLabels(old(lists.values), old(lists.labels), allowedValues[..])
  {
    ghost var allowed := allowedValues[..];
    ghost var vs, ls := lists.values, lists.labels;
    var i := |lists.values| - 1;
    while i >= 0
      invariant -1 <= i < |vs|
      invariant lists.values == vs[..i + 1] + KeepValues(vs[i + 1..], allowed)
      invariant lists.labels == ls[..i + 1] + KeepLabels(vs[i + 1..], ls[i + 1..], allowed)
      decreases i + 1
    {
      var val := lists.values[i];
      assert val == vs[i];
      var j := allowedValues.Length - 1;
      while j >= 0 && val != allowedValues[j]
        invariant -1 <= j < allowedValues.Length
        invariant forall k :: j < k < allowedValues.Length ==> allowedValues[k] != val
      {
        j := j - 1;
      }
      assert j < 0 <==> val !in allowed;
      RemoveStep(vs, ls, allowed, i);
      if j < 0 {
        lists.values := lists.values[..i] + lists.values[i + 1..];
        lists.labels := lists.labels[..i] + lists.labels[i + 1..];
      }
      i := i - 1;
    }
    assert vs[0..] == vs && ls[0..] == ls;
  }

  /** One step of the removal loop: keeping or dropping element `i` extends the filtered suffix by one. */
  lemma RemoveStep<L>(vs: seq<int>, ls: seq<L>, allowed: seq<int>, i: int)
    requires 0 <= i < |vs| == |ls|
    ensures var s := vs[..i + 1] + KeepValues(vs[i + 1..], allowed);
      (if vs[i] in allowed then s else s[..i] + s[i + 1..]) == vs[..i] + KeepValues(vs[i..], allowed)
    ensures var t := ls[..i + 1] + KeepLabels(vs[i + 1..], ls[i + 1..], allowed);
      (if vs[i] in allowed then t else t[..i] + t[i + 1..]) == ls[..i] + KeepLabels(vs[i..], ls[i..], allowed)
  {
    KeepStep(vs, ls, allowed, i);
    DropAt(vs, KeepValues(vs[i + 1..], allowed), i);
    DropAt(ls, KeepLabels(vs[i + 1..], ls[i + 1..], allowed), i);
  }

  /** The filters over a suffix, one element at a time. */
  lemma KeepStep<L>(vs: seq<int>, ls: seq<L>, allowed: seq<int>, i: int)
    requires 0 <= i < |vs| == |ls|
    ensures KeepValues(vs[i..], allowed) == (if vs[i] in allowed then [vs[i]] else []) + KeepValues(vs[i + 1..], allowed)
    ensures KeepLabels(vs[i..], ls[i..], allowed) == (if vs[i] in allowed then [ls[i]] else []) + KeepLabels(vs[i + 1..], ls[i + 1..], allowed)
  {
    assert vs[i..][1..] == vs[i + 1..] && ls[i..][1..] == ls[i + 1..];
  }

  /** Removing the element at `i` of a prefix followed by a rest, and keeping it. */
  lemma DropAt<T>(a: seq<T>, rest: seq<T>, i: int)
    requires 0 <= i < |a|
    ensures var s := a[..i + 1] + rest; s[..i] + s[i + 1..] == a[..i] + rest
    ensures a[..i + 1] + rest == a[..i] + ([a[i]] + rest)
  {
    var s := a[..i + 1] + rest;
    assert s[..i] == a[..i];
    assert s[i + 1..] == rest;
    assert a[..i + 1] == a[..i] + [a[i]];
  }

  /** A piece that fails to parse makes every longer prefix fail too. */
  lemma {:induction false} NoneExtends(pieces: seq<string>, n: nat)
    requires n <= |pieces| && ParseAll(pieces[..n]).None?
    ensures ParseAll(pieces).None?
    decreases |pieces| - n
  {
    if n < |pieces| {
      assert pieces[..n + 1][..n] == pieces[..n];
      NoneExtends(pieces, n + 1);
    } else {
      assert pieces[..n] == pieces;
    }
  }

  /**
   * What survives the reduction: exactly the values the allowed list contains, each
   * still with the label it had.
   */
  lemma {:induction false} KeepMeaning<L>(vs: seq<int>, ls: seq<L>, allowed: seq<int>)
    requires |vs| == |ls|
    ensures forall x :: x in KeepValues(vs, allowed) <==> x in vs && x in allowed
    ensures forall k :: 0 <= k < |KeepValues(vs, allowed)| ==>
      exists i :: 0 <= i < |vs| && vs[i] == KeepValues(vs, allowed)[k] && ls[i] == KeepLabels(vs, ls, allowed)[k]
  {
    KeepValuesMembers(vs, allowed);
    KeepPairs(vs, ls, allowed);
  }

  lemma {:induction false} KeepValuesMembers(vs: seq<int>, allowed: seq<int>)
    ensures forall x :: x in KeepValues(vs, allowed) <==> x in vs && x in allowed
  {
    if vs != [] {
      KeepValuesMembers(vs[1..], allowed);
      assert vs == [vs[0]] + vs[1..];
    }
  }

  lemma {:induction false} KeepPairs<L>(vs: seq<int>, ls: seq<L>, allowed: seq<int>)
    requires |vs| == |ls|
    ensures forall k :: 0 <= k < |KeepValues(vs, allowed)| ==>
      exists i :: 0 <= i < |vs| && vs[i] == KeepValues(vs, allowed)[k] && ls[i] == KeepLabels(vs, ls, allowed)[k]
  {
    if vs != [] {
      KeepPairs(vs[1..], ls[1..], allowed);
      var rv, rl := KeepValues(vs[1..], allowed), KeepLabels(vs[1..], ls[1..], allowed);
      var kv, kl := KeepValues(vs, allowed), KeepLabels(vs, ls, allowed);
      var d := if vs[0] in allowed then 1 else 0;
      assert kv == (if vs[0] in allowed then [vs[0]] else []) + rv;
      assert kl == (if vs[0] in allowed then [ls[0]] else []) + rl;
      forall k | 0 <= k < |kv|
        ensures exists i :: 0 <= i < |vs| && vs[i] == kv[k] && ls[i] == kl[k]
      {
        if k < d {
          assert vs[0] == kv[k] && ls[0] == kl[k];
        } else {
          assert kv[k] == rv[k - d] && kl[k] == rl[k - d];
          var i :| 0 <= i < |vs[1..]| && vs[1..][i] == rv[k - d] && ls[1..][i] == rl[k - d];
          assert vs[i + 1] == kv[k] && ls[i + 1] == kl[k];
        }
      }
    } else {
      assert KeepValues(vs, allowed) == [];
    }
  }

}
