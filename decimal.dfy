/** Decimal rendering of integers as Go's time package does it for its
    numeric layout elements (zero-padded to a minimum width, a leading
    minus sign for negative values), together with the inverse reading of
    a digit string, used to state what a rendered field denotes. */
module Decimal {

  predicate IsDigit(c: char) {
    '0' <= c <= '9'
  }

  predicate AllDigits(s: string) {
    forall i :: 0 <= i < |s| ==> IsDigit(s[i])
  }

  /** The ASCII digit for a value below ten. */
  function DigitChar(d: nat): (c: char)
    requires d < 10
    ensures IsDigit(c) && c as int - '0' as int == d
  {
    ('0' as int + d) as char
  }

  function Pow10(n: nat): (p: nat)
    ensures p >= 1
  {
    if n == 0 then 1 else 10 * Pow10(n - 1)
  }

  /** The decimal digits of n, most significant first, with no leading zero
      ("0" for zero). */
  function Digits(n: nat): (s: string)
    ensures 1 <= |s| && AllDigits(s)
  {
    if n < 10 then [DigitChar(n)] else Digits(n / 10) + [DigitChar(n % 10)]
  }

  /** The number a string of decimal digits denotes (leading zeros allowed). */
  function Value(s: string): nat
    requires AllDigits(s)
  {
    if s == [] then 0
    else 10 * Value(s[..|s| - 1]) + (s[|s| - 1] as int - '0' as int)
  }

  function Zeros(k: nat): (s: string)
    ensures |s| == k && AllDigits(s)
  {
    seq(k, _ => '0')
  }

  /** Left-pads s with '0' up to width characters. */
  function PadZeros(s: string, width: nat): string {
    if |s| < width then Zeros(width - |s|) + s else s
  }

  /** Go's appendInt(b, x, width) applied to an empty b: an optional '-'
      followed by the magnitude, zero-padded to at least width digits. */
  function FormatInt(x: int, width: nat): string {
    var magnitude := if x < 0 then -x else x;
    (if x < 0 then "-" else "") + PadZeros(Digits(magnitude), width)
  }

  /** Reading back the digits of n gives n. */
  lemma {:induction false} ValueOfDigits(n: nat)
    ensures Value(Digits(n)) == n
  {
    if n >= 10 {
      ValueOfDigits(n / 10);
      var s := Digits(n);
      assert s[..|s| - 1] == Digits(n / 10);
    }
  }

  /** A number below 10^w has at most w digits. */
  lemma {:induction false} DigitsFitWidth(n: nat, w: nat)
    requires 1 <= w && n < Pow10(w)
    ensures |Digits(n)| <= w
  {
    if n >= 10 {
      assert w >= 2;
      assert n / 10 < Pow10(w - 1);
      DigitsFitWidth(n / 10, w - 1);
    }
  }

  /** A string of at most w digits denotes a number below 10^w. */
  lemma {:induction false} ValueBelowPow10(s: string, w: nat)
    requires AllDigits(s)
    ensures |s| <= w ==> Value(s) < Pow10(w)
  {
    if s != [] && |s| <= w {
      ValueBelowPow10(s[..|s| - 1], w - 1);
    }
  }

  /** Leading zeros do not change the value of a digit string. */
  lemma {:induction false} ValueIgnoresLeadingZeros(k: nat, s: string)
    requires AllDigits(s)
    ensures AllDigits(Zeros(k) + s) && Value(Zeros(k) + s) == Value(s)
    decreases |s|, k
  {
    var z := Zeros(k) + s;
    if s == [] {
      assert z == Zeros(k);
      if k > 0 {
        assert z[..|z| - 1] == Zeros(k - 1) + [];
        ValueIgnoresLeadingZeros(k - 1, []);
      }
    } else {
      assert z[..|z| - 1] == Zeros(k) + s[..|s| - 1];
      ValueIgnoresLeadingZeros(k, s[..|s| - 1]);
    }
  }

  /** The digits of a positive number do not start with '0'. */
  lemma {:induction false} DigitsNoLeadingZero(n: nat)
    requires n >= 1
    ensures Digits(n)[0] != '0'
  {
    if n >= 10 {
      DigitsNoLeadingZero(n / 10);
    }
  }

  /** A non-negative number renders as digits only, at least width of them,
      exactly width when it is below 10^width, and reading them back gives
      the number.  Zeros are added only up to the width: a rendering longer
      than the width does not start with '0'. */
  lemma FormatIntNonNegative(x: int, width: nat)
    requires 0 <= x
    ensures var s := FormatInt(x, width);
      && AllDigits(s) && Value(s) == x && |s| >= width
      && (1 <= width && x < Pow10(width) ==> |s| == width)
      && (1 <= width && |s| > width ==> s[0] != '0')
  {
    var d := Digits(x);
    assert FormatInt(x, width) == PadZeros(d, width);
    ValueOfDigits(x);
    if 1 <= width && |d| > width && x >= 1 {
      DigitsNoLeadingZero(x);
    }
    if |d| < width {
      ValueIgnoresLeadingZeros(width - |d|, d);
    }
    if 1 <= width && x < Pow10(width) {
      DigitsFitWidth(x, width);
    }
  }

  /** A negative number renders as '-' followed by its magnitude, padded. */
  lemma FormatIntNegative(x: int, width: nat)
    requires x < 0
    ensures var s := FormatInt(x, width);
      |s| >= 1 && s[0] == '-' && s[1..] == FormatInt(-x, width)
  {
  }
}
