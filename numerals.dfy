/**
 * Decimal numerals over ASCII: reading the digits of a string as a number,
 * and the invariant-culture integer and "N2" renderings used for ranks and
 * amounts (comma thousands separators, exactly two fraction digits).
 */
module Numerals {

  predicate IsDigit(c: char) { '0' <= c <= '9' }

  predicate IsDigitOrComma(c: char) { IsDigit(c) || c == ',' }

  function DigitValue(c: char): nat
    requires IsDigit(c)
  {
    c as int - '0' as int
  }

  function DigitChar(d: nat): (c: char)
    requires d < 10
    ensures IsDigit(c) && DigitValue(c) == d
  {
    ('0' as int + d) as char
  }

  function Pow10(n: nat): (p: nat)
    ensures p >= 1
  {
    if n == 0 then 1 else 10 * Pow10(n - 1)
  }

  /** How many decimal digits s holds; every other character is skipped. */
  function DigitCount(s: string): nat
  {
    if s == [] then 0
    else DigitCount(s[..|s| - 1]) + (if IsDigit(s[|s| - 1]) then 1 else 0)
  }

  /** The digits of s read left to right as one decimal numeral; every other character is skipped. */
  function ValueOf(s: string): nat
  {
    if s == [] then 0
    else if IsDigit(s[|s| - 1]) then ValueOf(s[..|s| - 1]) * 10 + DigitValue(s[|s| - 1])
    else ValueOf(s[..|s| - 1])
  }

  lemma {:induction false} DigitCountAppend(s: string, t: string)
    ensures DigitCount(s + t) == DigitCount(s) + DigitCount(t)
  {
    if t == [] {
      assert s + t == s;
    } else {
      assert (s + t)[..|s + t| - 1] == s + t[..|t| - 1];
      assert (s + t)[|s + t| - 1] == t[|t| - 1];
      DigitCountAppend(s, t[..|t| - 1]);
    }
  }

  /** Shifting a numeral one more place: the arithmetic step of ValueOfAppend. */
  lemma ShiftStep(a: nat, p: nat, b: nat, d: nat)
    ensures (a * p + b) * 10 + d == a * (10 * p) + (b * 10 + d)
  {
  }

  lemma {:induction false} ValueOfAppend(s: string, t: string)
    ensures DigitCount(s + t) == DigitCount(s) + DigitCount(t)
    ensures ValueOf(s + t) == ValueOf(s) * Pow10(DigitCount(t)) + ValueOf(t)
  {
    DigitCountAppend(s, t);
    if t == [] {
      assert s + t == s;
    } else {
      var t' := t[..|t| - 1];
      var c := t[|t| - 1];
      assert (s + t)[..|s + t| - 1] == s + t';
      assert (s + t)[|s + t| - 1] == c;
      ValueOfAppend(s, t');
      if IsDigit(c) {
        var k := DigitCount(t');
        assert DigitCount(t) == k + 1;
        ShiftStep(ValueOf(s), Pow10(k), ValueOf(t'), DigitValue(c));
      }
    }
  }

  /** The invariant-culture rendering of a natural number: no sign, no separators. */
  function NatToString(n: nat): (s: string)
    ensures |s| > 0 && ValueOf(s) == n
    ensures forall k :: 0 <= k < |s| ==> IsDigit(s[k])
    ensures n > 0 ==> s[0] != '0'
    ensures n == 0 ==> s == "0"
  {
    if n < 10 then [DigitChar(n)]
    else
      var prefix := NatToString(n / 10);
      var s := prefix + [DigitChar(n % 10)];
      assert s[..|s| - 1] == prefix;
      s
  }

  /** Exactly two digits, with a leading zero: the fraction of "N2". */
  function TwoDigits(n: nat): (s: string)
    requires n < 100
    ensures |s| == 2 && DigitCount(s) == 2 && ValueOf(s) == n
    ensures forall k :: 0 <= k < 2 ==> IsDigit(s[k])
  {
    var first := [DigitChar(n / 10)];
    assert first[..0] == [];
    assert DigitCount(first) == 1 && ValueOf(first) == n / 10;
    var s := first + [DigitChar(n % 10)];
    assert s[..1] == first;
    s
  }

  /** Exactly three digits, with leading zeros: the groups after a thousands separator. */
  function ThreeDigits(n: nat): (s: string)
    requires n < 1000
    ensures |s| == 3 && DigitCount(s) == 3 && ValueOf(s) == n
    ensures forall k :: 0 <= k < 3 ==> IsDigit(s[k])
  {
    var high := TwoDigits(n / 10);
    var s := high + [DigitChar(n % 10)];
    assert s[..2] == high;
    s
  }

  /** The integer part of "N2": the digits of n with a comma before every group of three. */
  function GroupThousands(n: nat): (s: string)
    ensures |s| > 0 && ValueOf(s) == n
    ensures forall k :: 0 <= k < |s| ==> IsDigitOrComma(s[k])
    ensures IsDigit(s[0]) && IsDigit(s[|s| - 1])
  {
    if n < 1000 then NatToString(n)
    else
      var high := GroupThousands(n / 1000);
      var low := ThreeDigits(n % 1000);
      var s := high + [','] + low;
      ValueOfAppend(high + [','], low);
      assert (high + [','])[..|high|] == high;
      s
  }

  /** A number below 1000 is written with at most three digits. */
  lemma NatToStringShort(n: nat)
    requires n < 1000
    ensures |NatToString(n)| <= 3
  {
    if n >= 10 {
      assert |NatToString(n)| == |NatToString(n / 10)| + 1;
      if n / 10 >= 10 {
        assert |NatToString(n / 10)| == |NatToString(n / 100)| + 1;
      }
    }
  }

  /** Commas exactly at every fourth position from the end of s. */
  predicate CommasEveryFourth(s: string)
  {
    forall k :: 0 <= k < |s| ==> (s[k] == ',' <==> (|s| - k) % 4 == 0)
  }

  /** Three or fewer digits hold no comma and no fourth position. */
  lemma ShortDigitsLayout(s: string)
    requires |s| <= 3 && forall k :: 0 <= k < |s| ==> IsDigit(s[k])
    ensures CommasEveryFourth(s)
  {
    forall k | 0 <= k < |s|
      ensures s[k] == ',' <==> (|s| - k) % 4 == 0
    {
      assert 1 <= |s| - k <= 3;
    }
  }

  /** A comma and three digits after a correctly grouped prefix keep the grouping. */
  lemma GroupStep(high: string, low: string)
    requires CommasEveryFourth(high)
    requires |low| == 3 && forall k :: 0 <= k < 3 ==> IsDigit(low[k])
    ensures CommasEveryFourth(high + [','] + low)
  {
    var s := high + [','] + low;
    forall k | 0 <= k < |s|
      ensures s[k] == ',' <==> (|s| - k) % 4 == 0
    {
      if k < |high| {
        assert s[k] == high[k];
        assert |s| - k == (|high| - k) + 4;
      } else if k > |high| {
        assert s[k] == low[k - |high| - 1];
        assert 1 <= |s| - k <= 3;
      }
    }
  }

  /**
   * The layout of the grouped integer part: a comma exactly at every fourth
   * position counted from the end (one before each group of three digits),
   * and no leading zero except for zero itself.
   */
  lemma {:induction false} GroupThousandsLayout(n: nat)
    ensures CommasEveryFourth(GroupThousands(n))
    ensures n > 0 ==> GroupThousands(n)[0] != '0'
    ensures n == 0 ==> GroupThousands(n) == "0"
  {
    if n < 1000 {
      NatToStringShort(n);
      ShortDigitsLayout(NatToString(n));
    } else {
      var high := GroupThousands(n / 1000);
      GroupThousandsLayout(n / 1000);
      GroupStep(high, ThreeDigits(n % 1000));
      assert GroupThousands(n) == high + [','] + ThreeDigits(n % 1000);
    }
  }

  /**
   * C#'s ":N2" under the invariant culture, for an amount of `cents`
   * hundredths: the grouped integer part, a '.', and two fraction digits.
   */
  function FormatN2(cents: nat): (s: string)
    ensures |s| >= 4 && s[|s| - 3] == '.' && IsDigit(s[|s| - 2]) && IsDigit(s[|s| - 1])
    ensures s[..|s| - 3] == GroupThousands(cents / 100)
    ensures ValueOf(s) == cents
  {
    var whole := GroupThousands(cents / 100);
    var point := whole + ['.'];
    assert point[..|whole|] == whole;
    var s := point + TwoDigits(cents % 100);
    ValueOfAppend(point, TwoDigits(cents % 100));
    assert s[..|s| - 3] == whole;
    s
  }
}
