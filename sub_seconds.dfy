/**
 * `Milliseconds::parse`, `Microseconds::parse` and `Nanoseconds::parse`:
 * split a count of sub-second units into whole seconds and the remainder
 * as fixed-width decimal text, with C's truncating `/` and `%`.
 */
module SubSeconds {
  import opened CArith
  import opened Digits

  /** The `fmt::format` / `std::to_string` text chosen by the zero-padding branch chains. */
  function MillisText(suffix: int): string {
    if suffix - 1 == -1 then "000"
    else if suffix - 10 < 0 then "00" + ToDecimal(suffix)
    else if suffix - 100 < 0 then "0" + ToDecimal(suffix)
    else ToDecimal(suffix)
  }

  function ParseMillis(ms: int): (r: (int, string))
    ensures ms >= 0 ==> r.0 == ms / 1000 && r.0 * 1000 <= ms < (r.0 + 1) * 1000
    ensures ms < 0 ==> r.0 <= 0 && (r.0 - 1) * 1000 < ms <= r.0 * 1000
  {
    (Quot(ms, 1000), MillisText(Rem(ms, 1000)))
  }

  function MicrosText(suffix: int): string {
    if suffix - 1 == -1 then "000000"
    else if suffix - 10 < 0 then "00000" + ToDecimal(suffix)
    else if suffix - 100 < 0 then "0000" + ToDecimal(suffix)
    else if suffix - 1000 < 0 then "000" + ToDecimal(suffix)
    else if suffix - 10000 < 0 then "00" + ToDecimal(suffix)
    else if suffix - 100000 < 0 then "0" + ToDecimal(suffix)
    else ToDecimal(suffix)
  }

  function ParseMicros(us: int): (r: (int, string))
    ensures us >= 0 ==> r.0 == us / 1000000 && r.0 * 1000000 <= us < (r.0 + 1) * 1000000
    ensures us < 0 ==> r.0 <= 0 && (r.0 - 1) * 1000000 < us <= r.0 * 1000000
  {
    (Quot(us, 1000000), MicrosText(Rem(us, 1000000)))
  }

  function NanosText(suffix: int): string {
    if suffix - 1 == -1 then "000000000"
    else if suffix - 10 < 0 then "00000000" + ToDecimal(suffix)
    else if suffix - 100 < 0 then "0000000" + ToDecimal(suffix)
    else if suffix - 1000 < 0 then "000000" + ToDecimal(suffix)
    else if suffix - 10000 < 0 then "00000" + ToDecimal(suffix)
    else if suffix - 100000 < 0 then "0000" + ToDecimal(suffix)
    else if suffix - 1000000 < 0 then "000" + ToDecimal(suffix)
    else if suffix - 10000000 < 0 then "00" + ToDecimal(suffix)
    else if suffix - 100000000 < 0 then "0" + ToDecimal(suffix)
    else ToDecimal(suffix)
  }

  function ParseNanos(ns: int): (r: (int, string))
    ensures ns >= 0 ==> r.0 == ns / 1000000000 && r.0 * 1000000000 <= ns < (r.0 + 1) * 1000000000
    ensures ns < 0 ==> r.0 <= 0 && (r.0 - 1) * 1000000000 < ns <= r.0 * 1000000000
  {
    (Quot(ns, 1000000000), NanosText(Rem(ns, 1000000000)))
  }

  /** The branch for a remainder of `k` digits puts `width - k` zeros before its decimal text. */
  lemma PadBranch(n: nat, width: nat, k: nat)
    requires 1 <= k <= width && Pow10(k - 1) <= n < Pow10(k)
    ensures LeftPad(NatToDecimal(n), width) == Zeros(width - k) + ToDecimal(n)
  {
    NumDigitsOfRange(n, k);
    NatToDecimalRoundTrip(n);
  }

  /** Each branch of the millisecond chain pads a remainder to three digits. */
  lemma MillisPadded(s: nat)
    requires s < 1000
    ensures MillisText(s) == LeftPad(NatToDecimal(s), 3)
  {
    if s == 0 {
      assert Zeros(3) == "000";
      assert NatToDecimal(0) == "0";
    } else if s < 10 {
      assert Pow10(1) == 10;
      assert Zeros(2) == "00";
      PadBranch(s, 3, 1);
    } else if s < 100 {
      assert Pow10(2) == 100 && Pow10(1) == 10;
      assert Zeros(1) == "0";
      PadBranch(s, 3, 2);
    } else {
      assert Pow10(3) == 1000 && Pow10(2) == 100;
      PadBranch(s, 3, 3);
    }
  }

  /**
   * For a non-negative count the text is exactly three digits: the
   * remainder left-padded with zeros, and together with the seconds it
   * gives the count back. A negative remainder keeps its minus sign behind
   * the two zeros of the first padding branch.
   */
  lemma MillisDigits(ms: int)
    ensures ms >= 0 ==> ParseMillis(ms).1 == LeftPad(NatToDecimal(ms % 1000), 3)
    ensures ms >= 0 ==> |ParseMillis(ms).1| == 3 && AllDigits(ParseMillis(ms).1)
    ensures ms >= 0 ==> ParseMillis(ms).0 * 1000 + DecimalValue(ParseMillis(ms).1) == ms
    ensures Rem(ms, 1000) < 0 ==> ParseMillis(ms).1 == Zeros(2) + ToDecimal(Rem(ms, 1000))
  {
    var s := Rem(ms, 1000);
    assert Zeros(2) == "00";
    if ms >= 0 {
      assert Pow10(3) == 1000 by { assert Pow10(2) == 100; }
      MillisPadded(s);
      PaddedDecimal(s, 3);
    }
  }

  /** Each branch of the microsecond chain pads a remainder to six digits. */
  lemma MicrosPadded(s: nat)
    requires s < 1000000
    ensures MicrosText(s) == LeftPad(NatToDecimal(s), 6)
  {
    if s == 0 {
      assert Zeros(6) == "000000" by { assert Zeros(3) == "000"; }
      assert NatToDecimal(0) == "0";
    } else if s < 10 {
      assert Pow10(1) == 10;
      assert Zeros(5) == "00000" by { assert Zeros(2) == "00"; }
      PadBranch(s, 6, 1);
    } else if s < 100 {
      assert Pow10(2) == 100 && Pow10(1) == 10;
      assert Zeros(4) == "0000";
      PadBranch(s, 6, 2);
    } else if s < 1000 {
      assert Pow10(3) == 1000 && Pow10(2) == 100;
      assert Zeros(3) == "000";
      PadBranch(s, 6, 3);
    } else if s < 10000 {
      assert Pow10(4) == 10000 && Pow10(3) == 1000;
      assert Zeros(2) == "00";
      PadBranch(s, 6, 4);
    } else if s < 100000 {
      assert Pow10(5) == 100000 && Pow10(4) == 10000;
      assert Zeros(1) == "0";
      PadBranch(s, 6, 5);
    } else {
      assert Pow10(6) == 1000000 && Pow10(5) == 100000;
      PadBranch(s, 6, 6);
    }
  }

  /** The same for six digits of microseconds. */
  lemma MicrosDigits(us: int)
    ensures us >= 0 ==> ParseMicros(us).1 == LeftPad(NatToDecimal(us % 1000000), 6)
    ensures us >= 0 ==> |ParseMicros(us).1| == 6 && AllDigits(ParseMicros(us).1)
    ensures us >= 0 ==> ParseMicros(us).0 * 1000000 + DecimalValue(ParseMicros(us).1) == us
    ensures Rem(us, 1000000) < 0 ==> ParseMicros(us).1 == Zeros(5) + ToDecimal(Rem(us, 1000000))
  {
    var s := Rem(us, 1000000);
    assert Zeros(5) == "00000" by {
      assert Zeros(2) == "00";
      assert Zeros(3) == "000";
      assert Zeros(4) == "0000";
    }
    if us >= 0 {
      assert Pow10(6) == 1000000 by {
        assert Pow10(3) == 1000;
      }
      MicrosPadded(s);
      PaddedDecimal(s, 6);
    }
  }

  /** Each branch of the nanosecond chain pads a remainder to nine digits. */
  lemma NanosPadded(s: nat)
    requires s < 1000000000
    ensures NanosText(s) == LeftPad(NatToDecimal(s), 9)
  {
    if s == 0 {
      assert Zeros(9) == "000000000" by { assert Zeros(8) == "00000000" by { assert Zeros(4) == "0000"; } }
      assert NatToDecimal(0) == "0";
    } else if s < 10 {
      assert Pow10(1) == 10;
      assert Zeros(8) == "00000000";
      PadBranch(s, 9, 1);
    } else if s < 100 {
      assert Pow10(2) == 100 && Pow10(1) == 10;
      assert Zeros(7) == "0000000";
      PadBranch(s, 9, 2);
    } else if s < 1000 {
      assert Pow10(3) == 1000 && Pow10(2) == 100;
      assert Zeros(6) == "000000";
      PadBranch(s, 9, 3);
    } else if s < 10000 {
      assert Pow10(4) == 10000 && Pow10(3) == 1000;
      assert Zeros(5) == "00000";
      PadBranch(s, 9, 4);
    } else if s < 100000 {
      assert Pow10(5) == 100000 && Pow10(4) == 10000;
      assert Zeros(4) == "0000";
      PadBranch(s, 9, 5);
    } else if s < 1000000 {
      assert Pow10(6) == 1000000 && Pow10(5) == 100000;
      assert Zeros(3) == "000";
      PadBranch(s, 9, 6);
    } else if s < 10000000 {
      assert Pow10(7) == 10000000 && Pow10(6) == 1000000;
      assert Zeros(2) == "00";
      PadBranch(s, 9, 7);
    } else if s < 100000000 {
      assert Pow10(8) == 100000000 && Pow10(7) == 10000000;
      assert Zeros(1) == "0";
      PadBranch(s, 9, 8);
    } else {
      assert Pow10(9) == 1000000000 && Pow10(8) == 100000000;
      PadBranch(s, 9, 9);
    }
  }

  /** The same for nine digits of nanoseconds. */
  lemma NanosDigits(ns: int)
    ensures ns >= 0 ==> ParseNanos(ns).1 == LeftPad(NatToDecimal(ns % 1000000000), 9)
    ensures ns >= 0 ==> |ParseNanos(ns).1| == 9 && AllDigits(ParseNanos(ns).1)
    ensures ns >= 0 ==> ParseNanos(ns).0 * 1000000000 + DecimalValue(ParseNanos(ns).1) == ns
    ensures Rem(ns, 1000000000) < 0 ==> ParseNanos(ns).1 == Zeros(8) + ToDecimal(Rem(ns, 1000000000))
  {
    var s := Rem(ns, 1000000000);
    assert Zeros(8) == "00000000" by {
      assert Zeros(2) == "00";
      assert Zeros(4) == "0000";
      assert Zeros(6) == "000000";
    }
    if ns >= 0 {
      assert Pow10(9) == 1000000000 by {
        assert Pow10(3) == 1000;
        assert Pow10(6) == 1000000;
      }
      NanosPadded(s);
      PaddedDecimal(s, 9);
    }
  }
}
