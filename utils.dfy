/**
 * Helpers of `Utils`: the scanner that finds North American Numbering Plan phone numbers in
 * free text (with an optional RFC 3966 `tel:` prefix, section 3 of RFC 3966), the overlap test
 * for link spans and the capitalised string. The colour of declined events is the module
 * `DeclinedColor` below.
 */
module Utils {
  import opened Wrappers
  import opened JavaLang

  const NANP_ALLOWED_SYMBOLS: string := "()+-*#."
  const NANP_MIN_DIGITS: int := 7
  const NANP_MAX_DIGITS: int := 11

  /** The character 27 that `findNanpMatchEnd` reads past the end of the text. */
  const END_MARKER: char := 27 as char

  // ----- findNanpMatchEnd -----

  /** The scanner's variables: digits so far, the first of them, and a space after the area code. */
  datatype Scan = Scan(foundDigits: int, firstDigit: char, foundWhiteSpaceAfterAreaCode: bool)

  const START_SCAN: Scan := Scan(0, 'x', false)

  /** One character of the scan: go on with a new state, stop here, or give up on a 12th digit. */
  datatype Step = Continue(next: Scan) | Break | TooManyDigits

  function ScanStep(st: Scan, ch: char): Step {
    if IsDigit(ch) then
      var first := if st.foundDigits == 0 then ch else st.firstDigit;
      if st.foundDigits + 1 > NANP_MAX_DIGITS then TooManyDigits
      else Continue(st.(foundDigits := st.foundDigits + 1, firstDigit := first))
    else if IsWhitespace(ch) then
      if (st.firstDigit == '1' && st.foundDigits == 4) || st.foundDigits == 3 then
        Continue(st.(foundWhiteSpaceAfterAreaCode := true))
      else if st.firstDigit == '1' && st.foundDigits == 1 then Continue(st)
      else if st.foundWhiteSpaceAfterAreaCode
        && ((st.firstDigit == '1' && st.foundDigits == 7) || st.foundDigits == 6) then Continue(st)
      else Break
    else if ch !in NANP_ALLOWED_SYMBOLS then Break
    else Continue(st)
  }

  /** Where a scan stopped, and its state there. */
  datatype Stop = Stop(pos: int, state: Scan)

  /**
   * The scan from `pos` in state `st`: where it stops (at the end of the text at the latest,
   * where the end marker stops it) or `None` when a 12th digit turns up first.
   */
  function ScanFrom(text: string, pos: int, st: Scan): (r: Option<Stop>)
    requires 0 <= pos <= |text|
    ensures r.Some? ==> pos <= r.value.pos <= |text|
    ensures r.Some? && 0 <= st.foundDigits ==> st.foundDigits <= r.value.state.foundDigits <= st.foundDigits + (r.value.pos - pos)
    decreases |text| - pos
  {
    if pos == |text| then Some(Stop(pos, st))
    else
      match ScanStep(st, text[pos])
      case TooManyDigits => None
      case Break => Some(Stop(pos, st))
      case Continue(next) => ScanFrom(text, pos + 1, next)
  }

  /** A character the scan goes on over moves the scan one position on. */
  lemma ScanAdvance(text: string, pos: int, st: Scan, next: Scan)
    requires 0 <= pos < |text| && ScanStep(st, text[pos]) == Continue(next)
    ensures ScanFrom(text, pos, st) == ScanFrom(text, pos + 1, next)
  {}

  function LowerAscii(c: char): char {
    if 'A' <= c <= 'Z' then (c as int + 32) as char else c
  }

  function UpperAscii(c: char): char {
    if 'a' <= c <= 'z' then (c as int - 32) as char else c
  }

  /** `equalsIgnoreCase` on letters of the ASCII range. */
  predicate EqualsIgnoreCase(s: string, t: string) {
    |s| == |t| && forall i :: 0 <= i < |s| ==> LowerAscii(s[i]) == LowerAscii(t[i])
  }

  /** A `tel:` prefix, in any case, with at least one character after it. */
  predicate HasTelPrefix(text: string, startPos: int)
    requires 0 <= startPos
  {
    |text| > startPos + 4 && EqualsIgnoreCase(text[startPos..startPos + 4], "tel:")
  }

  /** Where the digits are looked for: after a `tel:` prefix, if there is one. */
  function NumberStart(text: string, startPos: int): (q: int)
    requires 0 <= startPos
    ensures q == startPos || q == startPos + 4
  {
    if HasTelPrefix(text, startPos) then startPos + 4 else startPos
  }

  /** 7 or 10 digits not starting with '1', or 11 starting with '1'. */
  predicate IsNanpMatch(st: Scan) {
    (st.firstDigit != '1' && (st.foundDigits == 7 || st.foundDigits == 10))
    || (st.firstDigit == '1' && st.foundDigits == 11)
  }

  /** `findNanpMatchEnd(text, startPos)`: the exclusive end of a number found there, or -1. */
  function MatchEnd(text: string, startPos: int): (r: int)
    requires 0 <= startPos <= |text|
    ensures r == -1 || startPos < r <= |text|
  {
    var q := NumberStart(text, startPos);
    match ScanFrom(text, q, START_SCAN)
    case None => -1
    case Some(stop) => if IsNanpMatch(stop.state) then stop.pos else -1
  }

  /** `findNanpMatchEnd`: skip a `tel:` prefix, then scan for the digits. */
  method FindNanpMatchEnd(text: string, startPos0: int) returns (r: int)
    requires 0 <= startPos0 <= |text|
    ensures r == MatchEnd(text, startPos0)
  {
    var startPos := startPos0;
    if HasTelPrefix(text, startPos) {
      startPos := startPos + 4;
    }
    r := ScanNumber(text, startPos);
  }

  /** The scan loop of `findNanpMatchEnd` over `curPos`, `foundDigits` and `firstDigit`. */
  method ScanNumber(text: string, startPos: int) returns (r: int)
    requires 0 <= startPos <= |text|
    ensures r == match ScanFrom(text, startPos, START_SCAN)
                 case None => -1
                 case Some(stop) => if IsNanpMatch(stop.state) then stop.pos else -1
  {
    var endPos := |text|;
    var curPos := startPos;
    var foundDigits := 0;
    var firstDigit := 'x';
    var foundWhiteSpaceAfterAreaCode := false;
    while curPos <= endPos
      invariant startPos <= curPos <= endPos
      invariant ScanFrom(text, startPos, START_SCAN)
        == ScanFrom(text, curPos, Scan(foundDigits, firstDigit, foundWhiteSpaceAfterAreaCode))
      decreases endPos - curPos
    {
      var ch := if curPos < endPos then text[curPos] else END_MARKER;
      ghost var st := Scan(foundDigits, firstDigit, foundWhiteSpaceAfterAreaCode);
      if IsDigit(ch) {
        if foundDigits == 0 {
          firstDigit := ch;
        }
        foundDigits := foundDigits + 1;
        if foundDigits > NANP_MAX_DIGITS {
          return -1;
        }
      } else if IsWhitespace(ch) {
        if (firstDigit == '1' && foundDigits == 4) || foundDigits == 3 {
          foundWhiteSpaceAfterAreaCode := true;
        } else if firstDigit == '1' && foundDigits == 1 {
        } else if foundWhiteSpaceAfterAreaCode && ((firstDigit == '1' && foundDigits == 7) || foundDigits == 6) {
        } else {
          break;
        }
      } else if ch !in NANP_ALLOWED_SYMBOLS {
        break;
      }
      ScanAdvance(text, curPos, st, Scan(foundDigits, firstDigit, foundWhiteSpaceAfterAreaCode));
      curPos := curPos + 1;
    }
    if (firstDigit != '1' && (foundDigits == 7 || foundDigits == 10)) || (firstDigit == '1' && foundDigits == 11) {
      return curPos;
    }
    return -1;
  }

  // ----- findNanpPhoneNumbers -----

  /**
   * A flat list of `[start, end)` pairs, each start at or after `from` and at or after the
   * previous end, each pair a match found by `findNanpMatchEnd` at a non-space character.
   */
  predicate MatchList(text: string, r: seq<int>, from: int)
    decreases |r|
  {
    r == [] ||
    (|r| >= 2 && from <= r[0] < r[1] <= |text| && 0 <= r[0] && !IsWhitespace(text[r[0]])
     && MatchEnd(text, r[0]) == r[1] && MatchList(text, r[2..], r[1]))
  }

  /** The first position from `p` on that is not whitespace, or `endPos`. */
  function SkipSpaces(text: string, p: int, endPos: int): (q: int)
    requires 0 <= p <= endPos < |text|
    ensures p <= q <= endPos && (q < endPos ==> !IsWhitespace(text[q]))
    decreases endPos - p
  {
    if p == endPos || !IsWhitespace(text[p]) then p else SkipSpaces(text, p + 1, endPos)
  }

  /** The first whitespace position from `p` on, or `endPos`; past `p` when `p` starts a word. */
  function SkipWord(text: string, p: int, endPos: int): (q: int)
    requires 0 <= p <= endPos < |text|
    ensures p <= q <= endPos && (q < endPos ==> IsWhitespace(text[q]))
    ensures p < endPos && !IsWhitespace(text[p]) ==> p < q
    decreases endPos - p
  {
    if p == endPos || IsWhitespace(text[p]) then p else SkipWord(text, p + 1, endPos)
  }

  /**
   * The pairs the search reports from `p` on, for starts before `endPos`: skip whitespace;
   * a match there is reported and jumped over; otherwise the word is skipped.
   */
  function NumbersFrom(text: string, p: int, endPos: int): seq<int>
    requires 0 <= p <= |text| && 0 <= endPos < |text|
    decreases |text| - p
  {
    if p >= endPos then []
    else
      var q := SkipSpaces(text, p, endPos);
      if q == endPos then []
      else
        var m := MatchEnd(text, q);
        if m > q then [q, m] + NumbersFrom(text, m, endPos)
        else NumbersFrom(text, SkipWord(text, q, endPos), endPos)
  }

  /** One step of each skip. */
  lemma SkipSpacesStep(text: string, p: int, endPos: int)
    requires 0 <= p < endPos < |text| && IsWhitespace(text[p])
    ensures SkipSpaces(text, p, endPos) == SkipSpaces(text, p + 1, endPos)
  {}

  lemma SkipWordStep(text: string, p: int, endPos: int)
    requires 0 <= p < endPos < |text| && !IsWhitespace(text[p])
    ensures SkipWord(text, p, endPos) == SkipWord(text, p + 1, endPos)
  {}

  /** The three cases of one round of the search, as seen from its start `p`. */
  lemma NumbersFromUnfold(text: string, p: int, endPos: int)
    requires 0 <= p < endPos < |text|
    ensures var q := SkipSpaces(text, p, endPos);
      && (q == endPos ==> NumbersFrom(text, p, endPos) == [])
      && (q < endPos && MatchEnd(text, q) > q ==>
            NumbersFrom(text, p, endPos) == [q, MatchEnd(text, q)] + NumbersFrom(text, MatchEnd(text, q), endPos))
      && (q < endPos && MatchEnd(text, q) <= q ==>
            NumbersFrom(text, p, endPos) == NumbersFrom(text, SkipWord(text, q, endPos), endPos))
  {}

  /** A round that finds only whitespace up to the bound ends the search. */
  lemma NumbersFromEnd(text: string, p: int, endPos: int)
    requires 0 <= p < endPos < |text| && SkipSpaces(text, p, endPos) == endPos
    ensures NumbersFrom(text, p, endPos) == []
  {}

  /** A round that finds a number reports it and goes on after it. */
  lemma NumbersFromFound(text: string, p: int, q: int, m: int, endPos: int)
    requires 0 <= p < endPos < |text| && q == SkipSpaces(text, p, endPos) < endPos
    requires m == MatchEnd(text, q) && m > q
    ensures NumbersFrom(text, p, endPos) == [q, m] + NumbersFrom(text, m, endPos)
  {}

  /** A round that finds no number there goes on after the word. */
  lemma NumbersFromSkipped(text: string, p: int, q: int, next: int, endPos: int)
    requires 0 <= p < endPos < |text| && q == SkipSpaces(text, p, endPos) < endPos
    requires MatchEnd(text, q) <= q && next == SkipWord(text, q, endPos)
    ensures NumbersFrom(text, p, endPos) == NumbersFrom(text, next, endPos)
  {}

  /** The pairs of the whole text: none in a text shorter than the shortest number. */
  function Numbers(text: string): seq<int> {
    if |text| < NANP_MIN_DIGITS then [] else NumbersFrom(text, 0, |text| - NANP_MIN_DIGITS + 1)
  }

  /** `findNanpPhoneNumbers(text)`: every number found, as `[start, end)` pairs in order. */
  method FindNanpPhoneNumbers(text: string) returns (result: seq<int>)
    ensures result == Numbers(text)
    ensures |text| < NANP_MIN_DIGITS ==> result == []
    ensures |result| % 2 == 0
    ensures MatchList(text, result, 0)
  {
    var list: seq<int> := [];
    var startPos := 0;
    var endPos := |text| - NANP_MIN_DIGITS + 1;
    if endPos < 0 {
      return [];
    }
    ghost var all := Numbers(text);
    while startPos < endPos
      invariant 0 <= startPos <= |text| && 0 <= endPos < |text|
      invariant list + NumbersFrom(text, startPos, endPos) == all
      decreases |text| - startPos
    {
      ghost var p0 := startPos;
      startPos := SkipWhitespace(text, startPos, endPos);
      if startPos == endPos {
        NumbersFromEnd(text, p0, endPos);
        break;
      }
      var matchEnd := FindNanpMatchEnd(text, startPos);
      if matchEnd > startPos {
        NumbersFromFound(text, p0, startPos, matchEnd, endPos);
        assert list + NumbersFrom(text, p0, endPos)
          == (list + [startPos, matchEnd]) + NumbersFrom(text, matchEnd, endPos);
        list := list + [startPos, matchEnd];
        startPos := matchEnd;
      } else {
        ghost var q := startPos;
        startPos := SkipToWhitespace(text, startPos, endPos);
        NumbersFromSkipped(text, p0, q, startPos, endPos);
      }
    }
    result := list;
    NumbersMatches(text);
  }

  /** The loop that skips whitespace before a candidate number. */
  method SkipWhitespace(text: string, p: int, endPos: int) returns (q: int)
    requires 0 <= p <= endPos < |text|
    ensures q == SkipSpaces(text, p, endPos)
  {
    q := p;
    while IsWhitespace(text[q]) && q < endPos
      invariant p <= q <= endPos
      invariant SkipSpaces(text, q, endPos) == SkipSpaces(text, p, endPos)
      decreases endPos - q
    {
      SkipSpacesStep(text, q, endPos);
      q := q + 1;
    }
  }

  /** The loop that skips to the next whitespace character after a failed match. */
  method SkipToWhitespace(text: string, p: int, endPos: int) returns (q: int)
    requires 0 <= p <= endPos < |text|
    ensures q == SkipWord(text, p, endPos)
  {
    q := p;
    while !IsWhitespace(text[q]) && q < endPos
      invariant p <= q <= endPos
      invariant SkipWord(text, q, endPos) == SkipWord(text, p, endPos)
      decreases endPos - q
    {
      SkipWordStep(text, q, endPos);
      q := q + 1;
    }
  }

  /** The pairs of the whole text come in twos, and each is a match, in order. */
  lemma NumbersMatches(text: string)
    ensures MatchList(text, Numbers(text), 0) && |Numbers(text)| % 2 == 0
  {
    if |text| >= NANP_MIN_DIGITS {
      NumbersFromMatchList(text, 0, |text| - NANP_MIN_DIGITS + 1);
    }
    MatchListEven(text, Numbers(text), 0);
  }

  /** Every pair the search reports from `p` on is a match starting at or after `p`, in order. */
  lemma {:induction false} NumbersFromMatchList(text: string, p: int, endPos: int)
    requires 0 <= p <= |text| && 0 <= endPos < |text|
    ensures MatchList(text, NumbersFrom(text, p, endPos), p)
    decreases |text| - p
  {
    if p < endPos {
      var q := SkipSpaces(text, p, endPos);
      if q < endPos {
        var m := MatchEnd(text, q);
        if m > q {
          NumbersFromMatchList(text, m, endPos);
          assert ([q, m] + NumbersFrom(text, m, endPos))[2..] == NumbersFrom(text, m, endPos);
        } else {
          NumbersFromMatchList(text, SkipWord(text, q, endPos), endPos);
          MatchListFrom(text, NumbersFrom(text, SkipWord(text, q, endPos), endPos), p, SkipWord(text, q, endPos));
        }
      }
    }
  }

  /** A list of matches starting at or after `from'` also starts at or after any earlier `from`. */
  lemma MatchListFrom(text: string, r: seq<int>, from: int, from': int)
    requires from <= from' && MatchList(text, r, from')
    ensures MatchList(text, r, from)
  {}

  /** Every pair list is of even length and its pairs are non-empty, ordered and disjoint. */
  lemma {:induction false} MatchListOrdered(text: string, r: seq<int>, from: int, k: int)
    requires MatchList(text, r, from) && 0 <= k && 2 * k + 1 < |r|
    ensures r[2 * k] < r[2 * k + 1]
    ensures 2 * k + 2 < |r| ==> r[2 * k + 1] <= r[2 * k + 2]
    ensures from <= r[2 * k]
    decreases k
  {
    if k > 0 {
      MatchListOrdered(text, r[2..], r[1], k - 1);
      assert r[2..][2 * (k - 1)] == r[2 * k];
      assert r[2..][2 * (k - 1) + 1] == r[2 * k + 1];
      if 2 * k + 2 < |r| {
        assert r[2..][2 * (k - 1) + 2] == r[2 * k + 2];
      }
    }
  }

  lemma {:induction false} MatchListEven(text: string, r: seq<int>, from: int)
    requires MatchList(text, r, from)
    ensures |r| % 2 == 0
    decreases |r|
  {
    if r != [] {
      MatchListEven(text, r[2..], r[1]);
    }
  }

  // ----- Properties of the scan -----

  /** The number of decimal digits in a string. */
  function CountDigits(s: string): nat {
    if s == [] then 0 else (if IsDigit(s[0]) then 1 else 0) + CountDigits(s[1..])
  }

  /** The first decimal digit of a string, or `dflt` when it has none. */
  function FirstDigitOr(s: string, dflt: char): char {
    if s == [] then dflt else if IsDigit(s[0]) then s[0] else FirstDigitOr(s[1..], dflt)
  }

  /** A character the scan passes over: a digit, a space, or one of "()+-*#.". */
  predicate Passable(c: char) {
    IsDigit(c) || IsWhitespace(c) || c in NANP_ALLOWED_SYMBOLS
  }

  /**
   * The state where a scan stops counts the digits passed, remembers the first of them, and
   * everything passed is passable; a stop before the end is at a character that is neither a
   * digit nor an allowed symbol.
   */
  lemma {:induction false} ScanStops(text: string, pos: int, st: Scan)
    requires 0 <= pos <= |text| && 0 <= st.foundDigits && ScanFrom(text, pos, st).Some?
    ensures var stop := ScanFrom(text, pos, st).value; var seg := text[pos..stop.pos];
      stop.state.foundDigits == st.foundDigits + CountDigits(seg)
      && stop.state.firstDigit == (if st.foundDigits == 0 then FirstDigitOr(seg, st.firstDigit) else st.firstDigit)
      && (forall i :: 0 <= i < |seg| ==> Passable(seg[i]))
      && (stop.pos < |text| ==> !IsDigit(text[stop.pos]) && text[stop.pos] !in NANP_ALLOWED_SYMBOLS)
    decreases |text| - pos
  {
    var stop := ScanFrom(text, pos, st).value;
    if pos < |text| && ScanStep(st, text[pos]).Continue? {
      var next := ScanStep(st, text[pos]).next;
      ScanStops(text, pos + 1, next);
      var seg := text[pos..stop.pos];
      assert seg[1..] == text[pos + 1..stop.pos];
      assert seg[0] == text[pos];
      forall i | 0 <= i < |seg| ensures Passable(seg[i]) {
        if i > 0 { assert seg[i] == seg[1..][i - 1]; }
      }
    } else {
      assert text[pos..stop.pos] == [];
    }
  }

  /** A match holds 7 or 10 digits not starting with '1', or 11 starting with '1'. */
  lemma MatchDigits(text: string, startPos: int)
    requires 0 <= startPos <= |text| && MatchEnd(text, startPos) != -1
    ensures var seg := text[NumberStart(text, startPos)..MatchEnd(text, startPos)];
      var n, first := CountDigits(seg), FirstDigitOr(seg, 'x');
      (first != '1' && (n == 7 || n == 10)) || (first == '1' && n == 11)
  {
    ScanStops(text, NumberStart(text, startPos), START_SCAN);
  }

  /** A string holds no more digits than characters. */
  lemma {:induction false} CountDigitsAtMost(s: string)
    ensures CountDigits(s) <= |s|
  {
    if s != [] {
      CountDigitsAtMost(s[1..]);
    }
  }

  /** No number starts at whitespace: the scan breaks on it before any digit. */
  lemma WhitespaceNoMatch(text: string, startPos: int)
    requires 0 <= startPos < |text| && IsWhitespace(text[startPos])
    ensures MatchEnd(text, startPos) == -1
  {
    assert "tel:"[0] == 't';
  }

  /** A number at the very start of the text is the first pair the search reports. */
  lemma FirstNumberFound(text: string)
    requires MatchEnd(text, 0) > 0
    ensures |Numbers(text)| >= 2 && Numbers(text)[..2] == [0, MatchEnd(text, 0)]
  {
    var m := MatchEnd(text, 0);
    MatchDigits(text, 0);
    CountDigitsAtMost(text[NumberStart(text, 0)..m]);
    if IsWhitespace(text[0]) {
      WhitespaceNoMatch(text, 0);
    }
    NumbersFromUnfold(text, 0, |text| - NANP_MIN_DIGITS + 1);
  }

  /** Twelve digits in a row where the number starts make the match fail. */
  lemma TooManyDigitsFail(text: string, startPos: int)
    requires 0 <= startPos <= |text|
    requires NumberStart(text, startPos) + 12 <= |text|
    requires AllDigits(text[NumberStart(text, startPos)..NumberStart(text, startPos) + 12])
    ensures MatchEnd(text, startPos) == -1
  {
    var q := NumberStart(text, startPos);
    DigitRunFails(text, q, 12, START_SCAN);
  }

  lemma {:induction false} DigitRunFails(text: string, pos: int, k: int, st: Scan)
    requires 0 <= pos && pos + k <= |text| && 0 <= st.foundDigits <= NANP_MAX_DIGITS
    requires st.foundDigits + k > NANP_MAX_DIGITS && AllDigits(text[pos..pos + k])
    ensures ScanFrom(text, pos, st).None?
    decreases k
  {
    assert text[pos..pos + k][0] == text[pos];
    if st.foundDigits < NANP_MAX_DIGITS {
      var next := ScanStep(st, text[pos]).next;
      var run, full := text[pos + 1..pos + k], text[pos..pos + k];
      forall i | 0 <= i < |run| ensures IsDigit(run[i]) {
        assert run[i] == full[i + 1];
      }
      DigitRunFails(text, pos + 1, k - 1, next);
    }
  }

  /** A `tel:` prefix (in any case) is passed over before the digits are counted. */
  lemma TelPrefixSkipped(text: string, startPos: int)
    requires 0 <= startPos && startPos + 4 < |text|
    requires LowerAscii(text[startPos]) == 't' && LowerAscii(text[startPos + 1]) == 'e'
    requires LowerAscii(text[startPos + 2]) == 'l' && text[startPos + 3] == ':'
    ensures NumberStart(text, startPos) == startPos + 4
  {
  }

  /** The end marker is neither a digit, a space nor an allowed symbol: it stops every scan. */
  lemma EndMarkerStops(st: Scan)
    ensures ScanStep(st, END_MARKER) == Break
  {
  }

  /** Apart from digits and spaces, exactly the allowed symbols let the scan go on. */
  lemma SymbolsContinue(st: Scan, ch: char)
    requires !IsDigit(ch) && !IsWhitespace(ch)
    ensures ScanStep(st, ch).Continue? <==> ch in NANP_ALLOWED_SYMBOLS
    ensures ScanStep(st, ch).Continue? ==> ScanStep(st, ch).next == st
  {
  }

  // ----- spanWillOverlap -----

  /** The start and end of an existing link span. */
  datatype Span = Span(start: int, end: int)

  predicate Overlaps(s: Span, start: int, end: int) {
    (start >= s.start && start < s.end) || (end > s.start && end <= s.end)
  }

  /** `spanWillOverlap`: a non-empty `[start, end)` that starts or ends inside an existing span. */
  method SpanWillOverlap(spans: seq<Span>, start: int, end: int) returns (r: bool)
    ensures r <==> start != end && exists k :: 0 <= k < |spans| && Overlaps(spans[k], start, end)
  {
    if start == end {
      return false;
    }
    var i := 0;
    while i < |spans|
      invariant 0 <= i <= |spans|
      invariant forall k :: 0 <= k < i ==> !Overlaps(spans[k], start, end)
    {
      var span := spans[i];
      if (start >= span.start && start < span.end) || (end > span.start && end <= span.end) {
        return true;
      }
      i := i + 1;
    }
    return false;
  }

  // ----- getUpperString -----

  /**
   * `getUpperString`: the first character in upper case and the rest as it is; `substring`
   * throws on the empty string (`None`).
   */
  function GetUpperString(str: string): (r: Option<string>)
    ensures r.Some? <==> |str| > 0
  {
    if |str| == 0 then None else Some([UpperAscii(str[0])] + str[1..])
  }

  /** Capitalising keeps the length and the tail, leaves no lower-case letter in front, and is idempotent. */
  lemma UpperStringProperties(str: string)
    requires |str| > 0
    ensures var u := GetUpperString(str).value;
      |u| == |str| && u[1..] == str[1..] && !('a' <= u[0] <= 'z')
      && LowerAscii(u[0]) == LowerAscii(str[0])
      && GetUpperString(u) == Some(u)
  {
  }
}

/**
 * `Utils.getDeclinedColorFromColor` on the 32 bits of a Java `int` colour (alpha in the top
 * byte, then red, green and blue).
 */
module DeclinedColor {
  const DECLINED_EVENT_ALPHA: bv32 := 0x66

  /** Java's `x >> 8` on the 32 bits of an `int`: the sign bit is copied into the top byte. */
  function ShiftRightSigned8(x: bv32): bv32 {
    (x >> 8) | ((0 - (x >> 31)) << 24)
  }

  /** The local `r` of `getDeclinedColorFromColor`: red mixed with white's red, in the top byte. */
  function RedPart(color: bv32): bv32 {
    ((color & 0x00ff_0000) * DECLINED_EVENT_ALPHA + (0xffff_ffff & 0x00ff_0000) * (0xff - DECLINED_EVENT_ALPHA)) & 0xff00_0000
  }

  /** The local `g`: green mixed with white's green, in the third byte. */
  function GreenPart(color: bv32): bv32 {
    ((color & 0x0000_ff00) * DECLINED_EVENT_ALPHA + (0xffff_ffff & 0x0000_ff00) * (0xff - DECLINED_EVENT_ALPHA)) & 0x00ff_0000
  }

  /** The local `b`: blue mixed with white's blue, in the second byte. */
  function BluePart(color: bv32): bv32 {
    ((color & 0x0000_00ff) * DECLINED_EVENT_ALPHA + (0xffff_ffff & 0x0000_00ff) * (0xff - DECLINED_EVENT_ALPHA)) & 0x0000_ff00
  }

  /**
   * `getDeclinedColorFromColor`: the colour blended with white (`bg = 0xffffffff`). Java's
   * `int` is its 32 bits here, so the products wrap as they do in Java, and the three parts
   * are shifted back by Java's sign-copying `>> 8`.
   */
  function GetDeclinedColorFromColor(color: bv32): (c: bv32)
    ensures c & 0xff00_0000 == 0xff00_0000
  {
    Compose(RedPart(color), GreenPart(color), BluePart(color))
  }

  /** `(0xff000000) | ((r | g | b) >> 8)`. */
  function Compose(r: bv32, g: bv32, b: bv32): (c: bv32)
    ensures c & 0xff00_0000 == 0xff00_0000
  {
    0xff00_0000 | ShiftRightSigned8(r | g | b)
  }

  /** One 8-bit channel mixed with white at the declined alpha. */
  function Blend(channel: bv32): bv32
    requires channel <= 0xff
  {
    (channel * DECLINED_EVENT_ALPHA + 0xff * (0xff - DECLINED_EVENT_ALPHA)) >> 8
  }

  /** Each channel of the declined colour is the channel blended with white. */
  lemma DeclinedColorChannels(color: bv32)
    ensures var c := GetDeclinedColorFromColor(color);
      (c >> 16) & 0xff == Blend((color >> 16) & 0xff)
      && (c >> 8) & 0xff == Blend((color >> 8) & 0xff)
      && c & 0xff == Blend(color & 0xff)
  {
    var x := RedChannel(color);
    var y := GreenChannel(color);
    var z := BlueChannel(color);
    PartsInPlace(color, x, y, z);
    Assemble(x, y, z);
  }

  lemma PartsInPlace(color: bv32, x: bv32, y: bv32, z: bv32)
    requires RedPart(color) == x << 24 && GreenPart(color) == y << 16 && BluePart(color) == z << 8
    ensures GetDeclinedColorFromColor(color) == Compose(x << 24, y << 16, z << 8)
  {
  }

  lemma RedChannel(color: bv32) returns (x: bv32)
    ensures x == Blend((color >> 16) & 0xff) && x <= 0xff && RedPart(color) == x << 24
  {
    x := Blend((color >> 16) & 0xff);
  }

  lemma GreenChannel(color: bv32) returns (y: bv32)
    ensures y == Blend((color >> 8) & 0xff) && y <= 0xff && GreenPart(color) == y << 16
  {
    y := Blend((color >> 8) & 0xff);
  }

  lemma BlueChannel(color: bv32) returns (z: bv32)
    ensures z == Blend(color & 0xff) && z <= 0xff && BluePart(color) == z << 8
  {
    z := Blend(color & 0xff);
  }

  /** Three bytes put in place and shifted back by `>> 8` under a full alpha byte. */
  lemma Assemble(x: bv32, y: bv32, z: bv32)
    requires x <= 0xff && y <= 0xff && z <= 0xff
    ensures var c := Compose(x << 24, y << 16, z << 8);
      (c >> 16) & 0xff == x && (c >> 8) & 0xff == y && c & 0xff == z
  {
    ComposeShifted(x, y, z);
    Bytes(x, y, z);
  }

  lemma ComposeShifted(x: bv32, y: bv32, z: bv32)
    requires x <= 0xff && y <= 0xff && z <= 0xff
    ensures Compose(x << 24, y << 16, z << 8) == 0xff00_0000 | ((x << 16) | (y << 8) | z)
  {
    SignedShiftUnderAlpha((x << 24) | (y << 16) | (z << 8));
    ShiftBack(x, y, z);
  }

  /** Under a full alpha byte the copied sign bits do not matter. */
  lemma SignedShiftUnderAlpha(w: bv32)
    ensures 0xff00_0000 | ShiftRightSigned8(w) == 0xff00_0000 | (w >> 8)
  {
    assert (0 - (w >> 31)) << 24 == 0 || (0 - (w >> 31)) << 24 == 0xff00_0000;
  }

  lemma ShiftBack(x: bv32, y: bv32, z: bv32)
    requires x <= 0xff && y <= 0xff && z <= 0xff
    ensures ((x << 24) | (y << 16) | (z << 8)) >> 8 == (x << 16) | (y << 8) | z
  {
  }

  lemma Bytes(x: bv32, y: bv32, z: bv32)
    requires x <= 0xff && y <= 0xff && z <= 0xff
    ensures var c := 0xff00_0000 | ((x << 16) | (y << 8) | z);
      (c >> 16) & 0xff == x && (c >> 8) & 0xff == y && c & 0xff == z
  {
  }
}
