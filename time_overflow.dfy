/**
 * Two times that `secs_to_tm` as written returns 0 for although their year
 * does not fit an `int`: the wrapped year it stores, beside the -1 of the
 * corrected version.
 */
module TimeOverflow {
  import opened CArith
  import opened CivilTime

  /** The latest time the range guard lets through: `INT_MAX` years of 366 days. */
  const LastAccepted: int := 67908586878892800  // 0x7FFF_FFFF * 31622400
  /** January 1st, 00:00:00, of year `INT_MAX + 1901`, so of `tm_year` `INT_MAX + 1`. */
  const OverflowNewYear: int := 67768036191676800  // 784352270737 * 86400
  /** The calendar year whose `tm_year` is `INT_MAX + 1`. */
  const OverflowYear: int := 2147485548  // 0x7FFF_FFFF + 1901

  lemma OverflowYearDays()
    ensures DaysBeforeYear(OverflowYear) == 784352270737
  {
  }

  /** Every date before year `INT_MAX + 1901` falls before its first day. */
  lemma BeforeOverflowYear(y: int, m: int, d: int)
    requires ValidDate(y, m, d) && y < OverflowYear
    ensures DaysFromCivil(y, m, d) < 784352270737
  {
    DateInYear(y, m, d);
    YearsIncrease(y + 1, OverflowYear);
    OverflowYearDays();
  }

  /** One past `INT_MAX` wraps to `INT_MIN`. */
  lemma WrapPastMax()
    ensures Wrap32(IntMax + 1) == IntMin
  {
    ModUnique(IntMax + 1, 0, 0x8000_0000);
  }

  /** The last accepted time lies beyond the years an `int` can count. */
  lemma LastAcceptedYear(u: Tm)
    requires Represents(u, LastAccepted)
    ensures !IsInt32(u.year)
  {
    var day := DaysFromCivil(u.year + 1900, u.mon + 1, u.mday);
    DayOf(LastAccepted, day, u.hour * 3600 + u.min * 60 + u.sec);
    assert day == 785979014802;
    if u.year + 1900 < OverflowYear {
      BeforeOverflowYear(u.year + 1900, u.mon + 1, u.mday);
    }
  }

  /** The first second of year `INT_MAX + 1901` reads as January 1st of `tm_year` `INT_MAX + 1`. */
  lemma OverflowNewYearDate(u: Tm)
    requires Represents(u, OverflowNewYear)
    ensures u.year == IntMax + 1 && u.mon == 0 && u.mday == 1
  {
    OverflowYearDays();
    assert DaysFromCivil(OverflowYear, 1, 1) == 784352270737;
    DateAndClockUnique(u.year + 1900, u.mon + 1, u.mday, u.hour, u.min, u.sec,
                       OverflowYear, 1, 1, 0, 0, 0, OverflowNewYear);
  }

  /**
   * The check on `years + 100`, done in `int`, never fires: the last
   * accepted time returns 0 with a year that is not its own, where the
   * corrected version returns -1.
   */
  method YearCheckWitness() returns (rcWritten: int, yearWritten: int, rcFixed: int)
    ensures rcWritten == 0 && rcFixed == -1
    ensures IsInt32(yearWritten)
    ensures forall u :: Represents(u, LastAccepted) ==> u.year != yearWritten && !IsInt32(u.year)
  {
    var tm0 := Tm(0, 0, 0, 1, 0, 70, 4, 0);
    var tm, tmFixed;
    rcWritten, tm := SecsToTmAsWritten(LastAccepted, tm0);
    ghost var u :| Represents(u, LastAccepted) && tm == u.(year := Wrap32(u.year));
    LastAcceptedYear(u);
    yearWritten := tm.year;
    rcFixed, tmFixed := SecsToTm(LastAccepted, tm0);
    assert Represents(u, LastAccepted) && !IsInt32(u.year);
    forall v | Represents(v, LastAccepted)
      ensures v.year != yearWritten && !IsInt32(v.year)
    {
      RepresentsUnique(u, v, LastAccepted);
    }
  }

  /**
   * The January carry adds one to `tm_year` after the check: the first
   * second of year `INT_MAX + 1901` returns 0 with `tm_year` wrapped to
   * `INT_MIN`, where the corrected version returns -1.
   */
  method CarryWitness() returns (rcWritten: int, yearWritten: int, rcFixed: int)
    ensures rcWritten == 0 && yearWritten == IntMin && rcFixed == -1
    ensures forall u :: Represents(u, OverflowNewYear) ==> u.year == IntMax + 1
  {
    var tm0 := Tm(0, 0, 0, 1, 0, 70, 4, 0);
    var tm, tmFixed;
    rcWritten, tm := SecsToTmAsWritten(OverflowNewYear, tm0);
    ghost var u :| Represents(u, OverflowNewYear) && tm == u.(year := Wrap32(u.year));
    OverflowNewYearDate(u);
    WrapPastMax();
    yearWritten := tm.year;
    rcFixed, tmFixed := SecsToTm(OverflowNewYear, tm0);
    assert Represents(u, OverflowNewYear) && !IsInt32(u.year);
    forall v | Represents(v, OverflowNewYear)
      ensures v.year == IntMax + 1
    {
      OverflowNewYearDate(v);
    }
  }
}
