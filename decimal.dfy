/** Decimal rendering of integers, as Go's time layouts and fmt verbs produce it,
    and the reading of digit strings back into numbers. */
module Decimal {

  predicate IsDigit(c: char) {
    '0' <= c <= '9'
  }

  predicate AllDigits(s: string) {
    forall i :: 0 <= i < |s| ==> IsDigit(s[i])
  }

  function DigitChar(d: nat): (c: char)
    requires d < 10
    ensures IsDigit(c) && c as int - '0' as int == d
  {
    ('0' as int + d) as char
  }

  function Pow10(k: nat): (p: nat)
    ensures p >= 1
  {
    if k == 0 then 1 else 10 * Pow10(k - 1)
  }

  /** The shortest decimal spelling of n ("0" for zero). */
  function Digits(n: nat): (s: string)
    ensures 1 <= |s| && AllDigits(s)
  {
    if n < 10 then [DigitChar(n)] else Digits(n / 10) + [DigitChar(n % 10)]
  }

  /** The number a digit string spells; leading zeros do not count. */
  function Value(s: string): nat
    requires AllDigits(s)
  {
    if s == [] then 0 else Value(s[..|s| - 1]) * 10 + (s[|s| - 1] as int - '0' as int)
  }

  function Zeros(k: nat): (s: string)
    ensures |s| == k && AllDigits(s)
  {
    if k == 0 then [] else Zeros(k - 1) + ['0']
  }

  /** n in decimal, left-padded with zeros to at least `width` characters. */
  function PadNat(n: nat, width: nat): (s: string)
    ensures AllDigits(s)
    ensures |s| == if |Digits(n)| < width then width else |Digits(n)|
  {
    var d := Digits(n);
    (if |d| < width then Zeros(width - |d|) else []) + d
  }

  /** A numeric field of a Go time layout ("2006", "01", "02"): a minus sign
      for a negative value, then the magnitude padded with zeros to `width`. */
  function LayoutField(x: int, width: nat): string {
    if x < 0 then "-" + PadNat(-x, width) else PadNat(x, width)
  }

  /** Go's fmt verb %0<width>d: the sign counts towards the width, so a
      negative value gets one zero fewer than a non-negative one. */
  function PrintfZeroPadded(x: int, width: nat): string {
    if x < 0 then "-" + PadNat(-x, if width == 0 then 0 else width - 1) else PadNat(x, width)
  }

  lemma AllDigitsAppend(a: string, b: string)
    requires AllDigits(a) && AllDigits(b)
    ensures AllDigits(a + b)
  {
  }

  /** With %02d a negative one-digit value keeps only one digit: the minus
      sign takes the place of the padding zero. */
  lemma PrintfSignCountsTowardWidth(x: int)
    requires -9 <= x < 0
    ensures PrintfZeroPadded(x, 2) == ['-', DigitChar(-x)]
  {
    assert Digits(-x) == [DigitChar(-x)];
    assert PadNat(-x, 1) == [DigitChar(-x)];
  }

  lemma ValueSnoc(s: string, c: char)
    requires AllDigits(s) && IsDigit(c)
    ensures AllDigits(s + [c]) && Value(s + [c]) == Value(s) * 10 + (c as int - '0' as int)
  {
    assert (s + [c])[..|s|] == s;
  }

  lemma {:induction false} ValueOfDigits(n: nat)
    ensures Value(Digits(n)) == n
  {
    if n >= 10 {
      ValueOfDigits(n / 10);
      ValueSnoc(Digits(n / 10), DigitChar(n % 10));
    }
  }

  lemma {:induction false} ValueOfZeros(k: nat)
    ensures Value(Zeros(k)) == 0
  {
    if k > 0 {
      ValueOfZeros(k - 1);
      ValueSnoc(Zeros(k - 1), '0');
    }
  }

  /** Leading zeros do not change the value of a digit string. */
  lemma {:induction false} ValueIgnoresLeadingZeros(k: nat, s: string)
    requires AllDigits(s)
    ensures AllDigits(Zeros(k) + s) && Value(Zeros(k) + s) == Value(s)
  {
    if s == [] {
      assert Zeros(k) + s == Zeros(k);
      ValueOfZeros(k);
    } else {
      var init := s[..|s| - 1];
      ValueIgnoresLeadingZeros(k, init);
      assert Zeros(k) + s == (Zeros(k) + init) + [s[|s| - 1]];
      ValueSnoc(Zeros(k) + init, s[|s| - 1]);
      ValueSnoc(init, s[|s| - 1]);
      assert init + [s[|s| - 1]] == s;
    }
  }

  /** Padding is undone by reading the digits back. */
  lemma PadNatRoundTrip(n: nat, width: nat)
    ensures Value(PadNat(n, width)) == n
  {
    var d := Digits(n);
    ValueOfDigits(n);
    if |d| < width {
      ValueIgnoresLeadingZeros(width - |d|, d);
    } else {
      assert PadNat(n, width) == d;
    }
  }

  /** A number below 10^width needs at most `width` digits. */
  lemma {:induction false} DigitsFit(n: nat, width: nat)
    requires 1 <= width && n < Pow10(width)
    ensures |Digits(n)| <= width
  {
    if n >= 10 {
      assert width >= 2;
      DigitsFit(n / 10, width - 1);
    }
  }

  /** Below 10^width the padded field is exactly `width` digits that read back as n. */
  lemma PadNatExact(n: nat, width: nat)
    requires 1 <= width && n < Pow10(width)
    ensures |PadNat(n, width)| == width && Value(PadNat(n, width)) == n
  {
    DigitsFit(n, width);
    PadNatRoundTrip(n, width);
  }

  /** A padded field of a given width determines the number it pads. */
  lemma PadNatInjective(a: nat, b: nat, width: nat)
    requires PadNat(a, width) == PadNat(b, width)
    ensures a == b
  {
    PadNatRoundTrip(a, width);
    PadNatRoundTrip(b, width);
  }

  /** A time-layout field starts with '-' exactly when its value is negative. */
  lemma LayoutFieldSign(x: int, width: nat)
    ensures |LayoutField(x, width)| >= 1
    ensures LayoutField(x, width)[0] == '-' <==> x < 0
  {
    if x >= 0 {
      assert IsDigit(PadNat(x, width)[0]);
    }
  }

  /** A time-layout field determines its value, sign included. */
  lemma LayoutFieldInjective(x: int, y: int, width: nat)
    requires LayoutField(x, width) == LayoutField(y, width)
    ensures x == y
  {
    LayoutFieldSign(x, width);
    LayoutFieldSign(y, width);
    var fx, fy := LayoutField(x, width), LayoutField(y, width);
    if x < 0 && y < 0 {
      assert fx[1..] == PadNat(-x, width) && fy[1..] == PadNat(-y, width);
      PadNatInjective(-x, -y, width);
    } else if x >= 0 && y >= 0 {
      PadNatInjective(x, y, width);
    }
  }
}
