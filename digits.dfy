/**
 * Decimal digits: the digit count of `count_digit`, and the decimal text
 * `std::to_string` / `fmt::format("{}")` produce for an integer.
 */
module Digits {
  import opened CArith

  function Pow10(k: nat): (r: nat)
    ensures r >= 1
  {
    if k == 0 then 1 else 10 * Pow10(k - 1)
  }

  /** The number of decimal digits of `n`, counting none for 0. */
  function NumDigits(n: nat): nat {
    if n == 0 then 0 else 1 + NumDigits(n / 10)
  }

  /** `n` has `NumDigits(n)` digits: it lies between the matching powers of ten. */
  lemma {:induction false} NumDigitsBounds(n: nat)
    ensures n == 0 <==> NumDigits(n) == 0
    ensures n > 0 ==> Pow10(NumDigits(n) - 1) <= n < Pow10(NumDigits(n))
  {
    if n >= 10 {
      NumDigitsBounds(n / 10);
    }
  }

  /** A number between two consecutive powers of ten has that many digits. */
  lemma {:induction false} NumDigitsOfRange(n: nat, k: nat)
    requires k >= 1 && Pow10(k - 1) <= n < Pow10(k)
    ensures NumDigits(n) == k
  {
    if k > 1 {
      NumDigitsOfRange(n / 10, k - 1);
    }
  }

  /**
   * `count_digit`: divides by ten, truncating as C does, until nothing is
   * left, counting the divisions. The count is the number of decimal digits
   * of the magnitude, 0 for 0.
   */
  method CountDigit(n: int) returns (count: int)
    ensures count == NumDigits(Abs(n))
    ensures n == 0 ==> count == 0
    ensures n != 0 ==> count >= 1 && Pow10(count - 1) <= Abs(n) < Pow10(count)
  {
    count := 0;
    var m := n;
    while m != 0
      invariant count + NumDigits(Abs(m)) == NumDigits(Abs(n))
      decreases Abs(m)
    {
      m := Quot(m, 10);
      count := count + 1;
    }
    NumDigitsBounds(Abs(n));
  }

  predicate IsDigit(c: char) {
    '0' <= c <= '9'
  }

  predicate AllDigits(s: string) {
    forall i :: 0 <= i < |s| ==> IsDigit(s[i])
  }

  function DigitChar(d: int): (c: char)
    requires 0 <= d < 10
    ensures IsDigit(c) && c as int - '0' as int == d
  {
    (d + '0' as int) as char
  }

  /** The decimal text of a natural number, without leading zeros ("0" for 0). */
  function NatToDecimal(n: nat): string
    decreases n
  {
    if n < 10 then [DigitChar(n)] else NatToDecimal(n / 10) + [DigitChar(n % 10)]
  }

  /** The decimal text of an integer: a minus sign before the magnitude when negative. */
  function ToDecimal(n: int): string {
    if n < 0 then "-" + NatToDecimal(-n) else NatToDecimal(n)
  }

  /** The value of a text of decimal digits. */
  function DecimalValue(s: string): nat
    requires AllDigits(s)
    decreases |s|
  {
    if s == [] then 0
    else DecimalValue(s[..|s| - 1]) * 10 + (s[|s| - 1] as int - '0' as int)
  }

  /** The decimal text is digits only, as long as the number has digits (one for 0), and reads back as the number. */
  lemma {:induction false} NatToDecimalRoundTrip(n: nat)
    ensures AllDigits(NatToDecimal(n))
    ensures |NatToDecimal(n)| == Max(NumDigits(n), 1)
    ensures DecimalValue(NatToDecimal(n)) == n
    decreases n
  {
    if n >= 10 {
      NatToDecimalRoundTrip(n / 10);
      var s := NatToDecimal(n);
      assert s[..|s| - 1] == NatToDecimal(n / 10);
    }
  }

  /** `k` zero characters. */
  function Zeros(k: nat): (s: string)
    ensures |s| == k && AllDigits(s)
  {
    if k == 0 then "" else Zeros(k - 1) + "0"
  }

  /** A text of zeros reads as 0. */
  lemma {:induction false} ZerosZero(k: nat)
    ensures DecimalValue(Zeros(k)) == 0
  {
    if k > 0 {
      ZerosZero(k - 1);
      assert Zeros(k)[..k - 1] == Zeros(k - 1);
    }
  }

  /** Leading zeros do not change the value of a text of digits. */
  lemma {:induction false} ZerosValue(k: nat, s: string)
    requires AllDigits(s)
    ensures AllDigits(Zeros(k) + s) && DecimalValue(Zeros(k) + s) == DecimalValue(s)
    decreases |s|
  {
    var z := Zeros(k) + s;
    assert forall i | 0 <= i < |z| :: z[i] == if i < k then Zeros(k)[i] else s[i - k];
    if s == [] {
      assert z == Zeros(k);
      ZerosZero(k);
    } else {
      var init := s[..|s| - 1];
      ZerosValue(k, init);
      assert z[..|z| - 1] == Zeros(k) + init;
      assert z[|z| - 1] == s[|s| - 1];
    }
  }

  /** A text left-padded with '0' to `width` characters (unchanged when already that long). */
  function LeftPad(s: string, width: nat): (r: string)
    ensures |r| == Max(|s|, width)
  {
    if |s| < width then Zeros(width - |s|) + s else s
  }

  /**
   * A number below `10^width`, in decimal left-padded to `width`, is
   * `width` digits that read back as the number.
   */
  lemma PaddedDecimal(n: nat, width: nat)
    requires width >= 1 && n < Pow10(width)
    ensures |LeftPad(NatToDecimal(n), width)| == width
    ensures AllDigits(LeftPad(NatToDecimal(n), width))
    ensures DecimalValue(LeftPad(NatToDecimal(n), width)) == n
  {
    NatToDecimalRoundTrip(n);
    DigitsBelow(n, width);
    var s := NatToDecimal(n);
    if |s| < width {
      ZerosValue(width - |s|, s);
    }
  }

  /** A number below `10^k` has at most `k` digits. */
  lemma {:induction false} DigitsBelow(n: nat, k: nat)
    requires n < Pow10(k)
    ensures NumDigits(n) <= k
  {
    if n > 0 {
      DigitsBelow(n / 10, k - 1);
    }
  }
}
