/**
 * The pieces of the Java and Kotlin standard libraries that the calendar core relies on,
 * written out with Java's own semantics: truncating division, 32-bit `int` bounds,
 * `Character.isDigit`/`isWhitespace` (ASCII part), `Integer.toString`/`parseInt`,
 * `"%02d"` formatting, `String.trim` and `String.split`.
 */
module JavaLang {
  import opened Wrappers

  const INT_MIN: int := -0x8000_0000
  const INT_MAX: int := 0x7fff_ffff

  predicate IsInt32(n: int) { INT_MIN <= n <= INT_MAX }

  /** Java's `/` on integers: the quotient truncated towards zero. */
  function JavaDiv(a: int, b: int): (q: int)
    requires b != 0
    ensures a >= 0 && b > 0 ==> q == a / b
    ensures a < 0 && b > 0 ==> q == -((-a) / b)
  {
    if a >= 0 && b > 0 then a / b
    else if a < 0 && b > 0 then -((-a) / b)
    else if a >= 0 then -(a / (-b))
    else (-a) / (-b)
  }

  /** Java's `%` on integers: the remainder takes the sign of the dividend. */
  function JavaRem(a: int, b: int): (r: int)
    requires b != 0
    ensures b > 0 && a >= 0 ==> r == a % b
    ensures b > 0 && a < 0 ==> r == -((-a) % b)
  {
    a - JavaDiv(a, b) * b
  }

  /** `Character.isDigit`, restricted to the ASCII digits. */
  predicate IsDigit(c: char) { '0' <= c <= '9' }

  function DigitValue(c: char): (v: nat)
    requires IsDigit(c)
    ensures v < 10
  {
    c as int - '0' as int
  }

  function DigitChar(d: nat): (c: char)
    requires d < 10
    ensures IsDigit(c) && DigitValue(c) == d
  {
    ('0' as int + d) as char
  }

  /** `Character.isWhitespace`, restricted to the ASCII space characters. */
  predicate IsWhitespace(c: char) {
    c == ' ' || c == '\t' || c == '\n' || c == '\U{000B}' || c == '\U{000C}' || c == '\r'
    || ('\U{001C}' <= c <= '\U{001F}')
  }

  predicate AllDigits(s: string) { forall i :: 0 <= i < |s| ==> IsDigit(s[i]) }

  /** The number written by a string of decimal digits, most significant first. */
  function DigitsValue(s: string): nat
    requires AllDigits(s)
  {
    if |s| == 0 then 0 else DigitsValue(s[..|s| - 1]) * 10 + DigitValue(s[|s| - 1])
  }

  /** Decimal digits of a natural number, without leading zeros. */
  function NatToString(n: nat): (s: string)
    decreases n
  {
    if n < 10 then [DigitChar(n)] else NatToString(n / 10) + [DigitChar(n % 10)]
  }

  /** `Integer.toString` / `String.valueOf(int)`. */
  function IntToString(n: int): string {
    if n < 0 then "-" + NatToString(-n) else NatToString(n)
  }

  /** `String.format("%02d", n)`: zero-padded to width two; wider or negative values print as is. */
  function Pad2(n: int): string {
    if 0 <= n < 10 then "0" + NatToString(n) else IntToString(n)
  }

  lemma {:induction false} NatToStringDigits(n: nat)
    ensures |NatToString(n)| >= 1 && AllDigits(NatToString(n))
    ensures DigitsValue(NatToString(n)) == n
    decreases n
  {
    if n >= 10 {
      NatToStringDigits(n / 10);
      var s := NatToString(n);
      assert s[..|s| - 1] == NatToString(n / 10);
    }
  }

  lemma {:induction false} NatToStringLength(n: nat, k: nat)
    ensures k >= 1 && Pow10(k - 1) <= n < Pow10(k) ==> |NatToString(n)| == k
    decreases n
  {
    if k >= 1 && Pow10(k - 1) <= n < Pow10(k) && n >= 10 {
      NatToStringLength(n / 10, k - 1);
    }
  }

  function Pow10(k: nat): (p: nat)
    ensures p >= 1
  {
    if k == 0 then 1 else 10 * Pow10(k - 1)
  }

  /** A four-digit year prints as exactly four digits that read back as the year. */
  lemma FourDigits(n: int)
    requires 1000 <= n <= 9999
    ensures |IntToString(n)| == 4 && AllDigits(IntToString(n)) && DigitsValue(IntToString(n)) == n
  {
    NatToStringDigits(n);
    assert Pow10(3) == 1000 && Pow10(4) == 10000;
    NatToStringLength(n, 4);
  }

  /** Different numbers print differently. */
  lemma IntToStringInjective(x: int, y: int)
    requires IntToString(x) == IntToString(y)
    ensures x == y
  {
    var s := IntToString(x);
    if x < 0 {
      NatToStringDigits(-x);
      assert s[0] == '-' && s[1..] == NatToString(-x);
    } else {
      NatToStringDigits(x);
      assert IsDigit(s[0]);
    }
    if y < 0 {
      NatToStringDigits(-y);
      assert s[0] == '-' && s[1..] == NatToString(-y);
    } else {
      NatToStringDigits(y);
      assert IsDigit(s[0]);
    }
  }

  /** A leading digit block of equal width decides the comparison unless it writes the same number. */
  lemma CompareDigitBlock(x1: string, r1: string, x2: string, r2: string)
    requires AllDigits(x1) && AllDigits(x2) && |x1| == |x2|
    ensures Sign(CompareStrings(x1 + r1, x2 + r2))
      == if DigitsValue(x1) != DigitsValue(x2) then Sign(DigitsValue(x1) - DigitsValue(x2))
         else Sign(CompareStrings(r1, r2))
  {
    CompareStringsAppend(x1, r1, x2, r2);
    CompareDigits(x1, x2);
    CompareStringsZero(x1, x2);
  }

  /** `%02d` of 0..99 is exactly two digits that read back as the value. */
  lemma Pad2Digits(n: int)
    requires 0 <= n < 100
    ensures |Pad2(n)| == 2 && AllDigits(Pad2(n)) && DigitsValue(Pad2(n)) == n
  {
    NatToStringDigits(n);
    if n >= 10 {
      assert Pow10(1) == 10 && Pow10(2) == 100;
      NatToStringLength(n, 2);
    } else {
      var s := Pad2(n);
      assert s[..1] == "0";
    }
  }

  /**
   * `Integer.parseInt`: an optional sign followed by at least one digit, within the 32-bit
   * range; anything else raises `NumberFormatException` (`None`).
   */
  function ParseInt(s: string): (r: Option<int>)
    ensures r.Some? ==> IsInt32(r.value)
  {
    if |s| == 0 then None
    else
      var start := if s[0] == '-' || s[0] == '+' then 1 else 0;
      if start == |s| || !AllDigits(s[start..]) then None
      else
        var v: int := if s[0] == '-' then 0 - DigitsValue(s[start..]) as int else DigitsValue(s[start..]);
        if IsInt32(v) then Some(v) else None
  }

  /** `Integer.parseInt(Integer.toString(n)) == n` for every 32-bit `n`. */
  lemma ParseIntToString(n: int)
    requires IsInt32(n)
    ensures ParseInt(IntToString(n)) == Some(n)
  {
    var s := IntToString(n);
    if n < 0 {
      NatToStringDigits(-n);
      assert s[1..] == NatToString(-n);
    } else {
      NatToStringDigits(n);
      assert s[0..] == s;
    }
  }

  /** `String.trim`: drop leading and trailing characters not above U+0020. */
  function Trim(s: string): (t: string)
    ensures |t| <= |s|
    ensures |t| > 0 ==> t[0] > ' ' && t[|t| - 1] > ' '
    decreases |s|
  {
    if |s| > 0 && s[0] <= ' ' then Trim(s[1..])
    else if |s| > 0 && s[|s| - 1] <= ' ' then Trim(s[..|s| - 1])
    else s
  }

  lemma {:induction false} TrimEmpty(s: string)
    ensures Trim(s) == "" <==> forall i :: 0 <= i < |s| ==> s[i] <= ' '
    decreases |s|
  {
    if |s| > 0 && s[0] <= ' ' {
      TrimEmpty(s[1..]);
      assert forall i :: 1 <= i < |s| ==> s[i] == s[1..][i - 1];
    } else if |s| > 0 && s[|s| - 1] <= ' ' {
      TrimEmpty(s[..|s| - 1]);
      assert forall i :: 0 <= i < |s| - 1 ==> s[i] == s[..|s| - 1][i];
    }
  }

  /** The pieces of `s` between occurrences of `sep`, empty pieces included. */
  function SplitAll(s: string, sep: char): (parts: seq<string>)
    ensures |parts| >= 1
    ensures forall p :: p in parts ==> sep !in p
  {
    if |s| == 0 then [""]
    else
      var rest := SplitAll(s[1..], sep);
      if s[0] == sep then [""] + rest else [[s[0]] + rest[0]] + rest[1..]
  }

  function DropTrailingEmpty(parts: seq<string>): (r: seq<string>)
    ensures |r| <= |parts| && r == parts[..|r|]
    ensures |r| > 0 ==> r[|r| - 1] != ""
    ensures forall i :: |r| <= i < |parts| ==> parts[i] == ""
  {
    if |parts| == 0 then []
    else if parts[|parts| - 1] == "" then DropTrailingEmpty(parts[..|parts| - 1])
    else parts
  }

  /**
   * `String.split` on a one-character separator with limit 0: a string without the
   * separator comes back whole (even the empty string); otherwise trailing empty
   * pieces are removed.
   */
  function Split(s: string, sep: char): (parts: seq<string>)
    ensures sep !in s ==> parts == [s]
    ensures forall p :: p in parts ==> sep !in p
  {
    if sep !in s then [s] else DropTrailingEmpty(SplitAll(s, sep))
  }

  /**
   * `String.compareTo`: the difference of the first differing characters, or else the
   * difference of the lengths.
   */
  function CompareStrings(s: string, t: string): int {
    if |s| == 0 || |t| == 0 then |s| - |t|
    else if s[0] != t[0] then s[0] as int - t[0] as int
    else CompareStrings(s[1..], t[1..])
  }

  function Sign(x: int): int {
    if x < 0 then -1 else if x == 0 then 0 else 1
  }

  lemma {:induction false} CompareStringsZero(s: string, t: string)
    ensures CompareStrings(s, t) == 0 <==> s == t
    decreases |s|
  {
    if |s| > 0 && |t| > 0 && s[0] == t[0] {
      CompareStringsZero(s[1..], t[1..]);
      if s[1..] == t[1..] {
        assert s == [s[0]] + s[1..] && t == [t[0]] + t[1..];
      }
    }
  }

  lemma {:induction false} CompareStringsAntisymmetric(s: string, t: string)
    ensures CompareStrings(s, t) == -CompareStrings(t, s)
    decreases |s|
  {
    if |s| > 0 && |t| > 0 && s[0] == t[0] {
      CompareStringsAntisymmetric(s[1..], t[1..]);
    }
  }

  /** Behind a common-length prefix, the comparison is decided by the prefixes when they differ. */
  lemma {:induction false} CompareStringsAppend(x1: string, y1: string, x2: string, y2: string)
    requires |x1| == |x2|
    ensures CompareStrings(x1 + y1, x2 + y2) == if x1 != x2 then CompareStrings(x1, x2) else CompareStrings(y1, y2)
    decreases |x1|
  {
    if |x1| == 0 {
      assert x1 == x2;
      assert x1 + y1 == y1 && x2 + y2 == y2;
    } else {
      assert (x1 + y1)[0] == x1[0] && (x2 + y2)[0] == x2[0];
      assert (x1 + y1)[1..] == x1[1..] + y1 && (x2 + y2)[1..] == x2[1..] + y2;
      if x1[0] == x2[0] {
        CompareStringsAppend(x1[1..], y1, x2[1..], y2);
        assert x1 == x2 <==> x1[1..] == x2[1..] by {
          if x1[1..] == x2[1..] {
            assert x1 == [x1[0]] + x1[1..] && x2 == [x2[0]] + x2[1..];
          }
        }
      }
    }
  }

  /** Equal-length digit strings compare like the numbers they write. */
  lemma {:induction false} CompareDigits(s: string, t: string)
    requires AllDigits(s) && AllDigits(t) && |s| == |t|
    ensures Sign(CompareStrings(s, t)) == Sign(DigitsValue(s) - DigitsValue(t))
    decreases |s|
  {
    CompareStringsZero(s, t);
    if |s| > 0 {
      var n := |s| - 1;
      var s', t' := s[..n], t[..n];
      assert s == s' + [s[n]] && t == t' + [t[n]];
      CompareStringsAppend(s', [s[n]], t', [t[n]]);
      CompareDigits(s', t');
      CompareStringsZero(s', t');
    }
  }

  /** A remainder of Java's `%` is zero exactly when the Euclidean one is, for 4, 100 and 400. */
  lemma RemZero(a: int)
    ensures JavaRem(a, 4) == 0 <==> a % 4 == 0
    ensures JavaRem(a, 100) == 0 <==> a % 100 == 0
    ensures JavaRem(a, 400) == 0 <==> a % 400 == 0
  {
    if a < 0 {
      assert JavaRem(a, 4) == -((-a) % 4);
      assert JavaRem(a, 100) == -((-a) % 100);
      assert JavaRem(a, 400) == -((-a) % 400);
      NegMultiple4(a, a / 4, a % 4);
      NegMultiple100(a, a / 100, a % 100);
      NegMultiple400(a, a / 400, a % 400);
    }
  }

  /** `-a` is a multiple of 4, 100 or 400 when `a` is. */
  lemma NegMultiple4(a: int, q: int, r: int)
    requires a == 4 * q + r && 0 <= r < 4
    ensures (-a) % 4 == 0 <==> r == 0
  {
    if r == 0 { assert -a == 4 * (-q); } else { assert -a == 4 * (-q - 1) + (4 - r); }
  }

  lemma NegMultiple100(a: int, q: int, r: int)
    requires a == 100 * q + r && 0 <= r < 100
    ensures (-a) % 100 == 0 <==> r == 0
  {
    if r == 0 { assert -a == 100 * (-q); } else { assert -a == 100 * (-q - 1) + (100 - r); }
  }

  lemma NegMultiple400(a: int, q: int, r: int)
    requires a == 400 * q + r && 0 <= r < 400
    ensures (-a) % 400 == 0 <==> r == 0
  {
    if r == 0 { assert -a == 400 * (-q); } else { assert -a == 400 * (-q - 1) + (400 - r); }
  }

  /** The value of two digits. */
  lemma TwoDigitsValue(w: string)
    requires |w| == 2 && AllDigits(w)
    ensures DigitsValue(w) == 10 * DigitValue(w[0]) + DigitValue(w[1])
  {
    var w0 := w[..1];
    assert w0[..0] == [] && w0[0] == w[0];
    assert DigitsValue(w0) == DigitValue(w[0]);
    assert w[..|w| - 1] == w0;
  }

  /** The digits of `x` followed by those of `y` write `x` shifted by the length of `y`, plus `y`. */
  lemma {:induction false} DigitsValueConcat(x: string, y: string)
    requires AllDigits(x) && AllDigits(y)
    ensures AllDigits(x + y) && DigitsValue(x + y) == DigitsValue(x) * Pow10(|y|) + DigitsValue(y)
    decreases |y|
  {
    var xy := x + y;
    assert AllDigits(xy) by {
      forall i | 0 <= i < |xy| ensures IsDigit(xy[i]) {
        if i < |x| { assert xy[i] == x[i]; } else { assert xy[i] == y[i - |x|]; }
      }
    }
    if |y| > 0 {
      var n := |y| - 1;
      var y' := y[..n];
      assert AllDigits(y');
      assert xy[..|xy| - 1] == x + y' && xy[|xy| - 1] == y[n];
      DigitsValueConcat(x, y');
      assert y[..|y| - 1] == y';
      assert DigitsValue(y) == DigitsValue(y') * 10 + DigitValue(y[n]);
      assert DigitsValue(xy) == DigitsValue(x + y') * 10 + DigitValue(y[n]);
      ShiftDigit(DigitsValue(x), Pow10(n), DigitsValue(y'));
    } else {
      assert xy == x;
    }
  }

  lemma ShiftDigit(a: int, p: int, b: int)
    ensures (a * p + b) * 10 == a * (10 * p) + b * 10
  {
  }
}
