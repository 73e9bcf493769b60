/** Decimal digit strings: the `int(...)` and `str(int)` conversions Python performs, and
    zero padding as `strftime` writes it. */
module Decimal {

  predicate IsDigit(c: char) {
    '0' <= c <= '9'
  }

  predicate AllDigits(s: string) {
    forall i :: 0 <= i < |s| ==> IsDigit(s[i])
  }

  /** The regular-expression alternative `0|[1-9][0-9]*`: a decimal numeral without a leading zero. */
  predicate IsNumeral(s: string) {
    && |s| > 0
    && AllDigits(s)
    && (s[0] == '0' ==> |s| == 1)
  }

  function DigitValue(c: char): (d: nat)
    requires IsDigit(c)
    ensures d < 10
  {
    c as int - '0' as int
  }

  function DigitChar(d: nat): (c: char)
    requires d < 10
    ensures IsDigit(c) && DigitValue(c) == d
  {
    ('0' as int + d) as char
  }

  function Pow10(k: nat): (p: nat)
    ensures p >= 1
  {
    if k == 0 then 1 else 10 * Pow10(k - 1)
  }

  /** Python's `int(s)` on a string of decimal digits (leading zeros allowed). */
  function Value(s: string): nat
    requires AllDigits(s)
  {
    if |s| == 0 then 0 else Value(s[..|s| - 1]) * 10 + DigitValue(s[|s| - 1])
  }

  /** A string of `k` digits stands for a number below `10^k`. */
  lemma {:induction false} ValueBound(s: string)
    requires AllDigits(s)
    ensures Value(s) < Pow10(|s|)
    decreases |s|
  {
    if |s| > 0 {
      ValueBound(s[..|s| - 1]);
    }
  }

  /** Python's `str(n)` for a non-negative int: the shortest decimal numeral of `n`. */
  function FromNat(n: nat): (s: string)
    ensures IsNumeral(s)
    ensures Value(s) == n
  {
    if n < 10 then
      [DigitChar(n)]
    else
      var prefix := FromNat(n / 10);
      var s := prefix + [DigitChar(n % 10)];
      assert s[..|s| - 1] == prefix;
      assert prefix[0] == '0' ==> prefix == "0" by {
        if prefix[0] == '0' {
          assert |prefix| == 1 && prefix == [prefix[0]];
        }
      }
      s
  }

  /** Python's `str(i)` for any int: a minus sign precedes the magnitude of a negative value. */
  function FormatInt(i: int): (s: string)
    ensures i >= 0 ==> IsNumeral(s) && Value(s) == i
    ensures i < 0 ==> |s| > 0 && s[0] == '-'
  {
    if i < 0 then "-" + FromNat(-i) else FromNat(i)
  }

  lemma ValueOfNonZeroLead(s: string)
    requires AllDigits(s) && |s| > 0 && s[0] != '0'
    ensures Value(s) >= Pow10(|s| - 1)
    decreases |s|
  {
    if |s| > 1 {
      var prefix := s[..|s| - 1];
      assert prefix[0] == s[0];
      ValueOfNonZeroLead(prefix);
    }
  }

  /** Every numeral is the shortest form of its own value: `str(int(s)) == s`. */
  lemma {:induction false} NumeralRoundTrip(s: string)
    requires IsNumeral(s)
    ensures FromNat(Value(s)) == s
    decreases |s|
  {
    if |s| > 1 {
      var prefix := s[..|s| - 1];
      assert prefix[0] == s[0] != '0';
      ValueOfNonZeroLead(prefix);
      assert IsNumeral(prefix);
      NumeralRoundTrip(prefix);
      var n := Value(s);
      assert n / 10 == Value(prefix) && n % 10 == DigitValue(s[|s| - 1]);
      assert s == prefix + [s[|s| - 1]];
    } else {
      assert s == [DigitChar(DigitValue(s[0]))];
    }
  }

  lemma ShiftOneDigit(x: int, p: int, y: int, d: int)
    ensures (x * p + y) * 10 + d == x * (10 * p) + (y * 10 + d)
  {
  }

  /** Reading the concatenation of two digit strings: the left part is shifted by the right part's length. */
  lemma {:induction false} ValueOfConcat(a: string, b: string)
    requires AllDigits(a) && AllDigits(b)
    ensures AllDigits(a + b)
    ensures Value(a + b) == Value(a) * Pow10(|b|) + Value(b)
    decreases |b|
  {
    if |b| > 0 {
      var b' := b[..|b| - 1];
      assert (a + b)[..|a + b| - 1] == a + b';
      ValueOfConcat(a, b');
      var d := DigitValue(b[|b| - 1]);
      assert Value(a + b) == Value(a + b') * 10 + d;
      assert Value(b) == Value(b') * 10 + d;
      assert Pow10(|b|) == 10 * Pow10(|b'|);
      ShiftOneDigit(Value(a), Pow10(|b'|), Value(b'), d);
    } else {
      assert a + b == a;
    }
  }

  function Zeros(k: nat): (s: string)
    ensures |s| == k && AllDigits(s)
    ensures Value(s) == 0
  {
    if k == 0 then "" else
      var s := Zeros(k - 1) + "0";
      assert s[..|s| - 1] == Zeros(k - 1);
      s
  }

  lemma {:induction false} NumeralLength(n: nat, k: nat)
    requires k >= 1 && n < Pow10(k)
    ensures |FromNat(n)| <= k
    decreases k
  {
    if n >= 10 {
      NumeralLength(n / 10, k - 1);
    }
  }

  /** `n` written in at least `width` digits, left-padded with zeros (`%04d`, `%02d`). */
  function ZeroPad(n: nat, width: nat): (s: string)
    requires width >= 1 && n < Pow10(width)
    ensures |s| == width
    ensures AllDigits(s)
    ensures Value(s) == n
  {
    var digits := FromNat(n);
    NumeralLength(n, width);
    ValueOfConcat(Zeros(width - |digits|), digits);
    Zeros(width - |digits|) + digits
  }
}
