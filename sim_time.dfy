/** Simulation-time helpers of energym/utils/common.py: the length of a run
    period in seconds (`get_delta_seconds`) and the calendar day, month and
    hour reached after some seconds of simulation (`get_current_time_info`).
    The run period object `epm.RunPeriod[0]` is reduced to the two integers
    it supplies, its begin month and begin day of month. */
module SimTime {
  import opened Results
  import opened Calendar

  /** (day of month, month, hour), the tuple `get_current_time_info` returns. */
  type TimeInfo = (int, int, int)

  /** Seconds from `year-stMon-stDay 00:00` to `year-endMon-endDay 23:00` plus
      one hour. It succeeds exactly for two valid dates of a representable
      year whose end is not 9999-12-31 (that end of day overflows), and then
      counts 86400 seconds per day from the start day to the end day
      inclusive; the end may lie before the start, and no check orders them. */
  function DeltaSeconds(year: int, stMon: int, stDay: int, endMon: int, endDay: int): (r: Result<int, DateError>)
    ensures && (r.Ok? <==> MinYear <= year <= MaxYear && ValidDate(Date(year, stMon, stDay))
                           && ValidDate(Date(year, endMon, endDay)) && Date(year, endMon, endDay) != Date(MaxYear, 12, 31))
            && (r.Ok? ==> r.value == SecondsPerDay * (Ordinal(Date(year, endMon, endDay)) - Ordinal(Date(year, stMon, stDay)) + 1))
  {
    var startTime :- MakeDateTime(year, stMon, stDay, 0, 0, 0);
    var lastHour :- MakeDateTime(year, endMon, endDay, 23, 0, 0);
    EndOfDay(lastHour.date);
    var endTime :- AddSeconds(lastHour, SecondsPerHour);
    Ok(SecondsBetween(startTime, endTime))
  }

  /** Day, month and truncated hour of `simYear-beginMonth-beginDay 00:00`
      plus `secElapsed` seconds; the year is not returned. The result is the
      date `secElapsed div 86400` days after the begin date (floor division,
      so negative offsets move backwards) with the hour
      `(secElapsed mod 86400) div 3600`; it overflows when that date leaves
      years 1..9999. An invalid begin date fails as the constructor does. */
  function CurrentTimeInfo(beginMonth: int, beginDay: int, secElapsed: int, simYear: int): (r: Result<TimeInfo, DateError>)
    ensures !(MinYear <= simYear <= MaxYear && ValidDate(Date(simYear, beginMonth, beginDay)))
            ==> r == Err(MakeDateTime(simYear, beginMonth, beginDay, 0, 0, 0).error)
    ensures MinYear <= simYear <= MaxYear && ValidDate(Date(simYear, beginMonth, beginDay)) ==>
              var target := AddDays(Date(simYear, beginMonth, beginDay), secElapsed / SecondsPerDay);
              r == if InRange(target)
                   then Ok((target.day, target.month, secElapsed % SecondsPerDay / SecondsPerHour))
                   else Err(Overflow)
  {
    var startDate :- MakeDateTime(simYear, beginMonth, beginDay, 0, 0, 0);
    var currentDate :- AddSeconds(startDate, secElapsed);
    Ok((currentDate.date.day, currentDate.date.month, currentDate.hour))
  }

  // ---------------------------------------------------------------------
  // get_delta_seconds

  /** 23:00 plus one hour is midnight of the next day, unless the day is
      9999-12-31, whose next day a Python `datetime` cannot hold. */
  lemma EndOfDay(e: Date)
    requires ValidDate(e) && InRange(e)
    ensures AddSeconds(DateTime(e, 23, 0, 0), SecondsPerHour)
            == if e == Date(MaxYear, 12, 31) then Err(Overflow) else Ok(DateTime(NextDay(e), 0, 0, 0))
  {
    var lastHour := DateTime(e, 23, 0, 0);
    assert (SecondOfDay(lastHour) + SecondsPerHour) / SecondsPerDay == 1;
    assert (SecondOfDay(lastHour) + SecondsPerHour) % SecondsPerDay == 0;
    assert AddDays(e, 1) == AddDays(NextDay(e), 0) == NextDay(e);
    assert NextDay(e).year == e.year || (e.month == 12 && e.day == 31 && NextDay(e).year == e.year + 1);
  }

  /** Which exception each invalid input raises: the start is built first,
      then the end, then the end is moved past its last hour; each
      constructor reads its arguments as C ints before checking the fields. */
  lemma DeltaSecondsErrors(year: int, stMon: int, stDay: int, endMon: int, endDay: int)
    ensures var r := DeltaSeconds(year, stMon, stDay, endMon, endDay);
      && (!(FitsCInt(year) && FitsCInt(stMon) && FitsCInt(stDay)) ==> r == Err(Overflow))
      && (FitsCInt(year) && FitsCInt(stMon) && FitsCInt(stDay) && !(MinYear <= year <= MaxYear) ==> r == Err(YearOutOfRange))
      && (MinYear <= year <= MaxYear && FitsCInt(stMon) && FitsCInt(stDay) && !(1 <= stMon <= 12) ==> r == Err(MonthOutOfRange))
      && (MinYear <= year <= MaxYear && 1 <= stMon <= 12 && FitsCInt(stDay) && !ValidDate(Date(year, stMon, stDay))
          ==> r == Err(DayOutOfRange))
      && (MinYear <= year <= MaxYear && ValidDate(Date(year, stMon, stDay)) && !(FitsCInt(endMon) && FitsCInt(endDay))
          ==> r == Err(Overflow))
      && ((MinYear <= year <= MaxYear && ValidDate(Date(year, stMon, stDay)) && FitsCInt(endMon) && FitsCInt(endDay)
           && !(1 <= endMon <= 12)) ==> r == Err(MonthOutOfRange))
      && ((MinYear <= year <= MaxYear && ValidDate(Date(year, stMon, stDay)) && 1 <= endMon <= 12 && FitsCInt(endDay)
           && !ValidDate(Date(year, endMon, endDay))) ==> r == Err(DayOutOfRange))
      && (ValidDate(Date(year, stMon, stDay)) && Date(year, endMon, endDay) == Date(MaxYear, 12, 31) ==> r == Err(Overflow))
  {
  }

  /** A run period of one day lasts 86400 seconds. */
  lemma DeltaSecondsSameDay(year: int, mon: int, day: int)
    requires MinYear <= year <= MaxYear && ValidDate(Date(year, mon, day)) && Date(year, mon, day) != Date(MaxYear, 12, 31)
    ensures DeltaSeconds(year, mon, day, mon, day) == Ok(86400)
  {
  }

  /** No ordering check: the result is positive when the end is not before the
      start, zero when the end is the day before the start, negative when earlier. */
  lemma DeltaSecondsSign(year: int, stMon: int, stDay: int, endMon: int, endDay: int)
    requires MinYear <= year <= MaxYear
    requires ValidDate(Date(year, stMon, stDay)) && ValidDate(Date(year, endMon, endDay))
    requires Date(year, endMon, endDay) != Date(MaxYear, 12, 31)
    ensures var s, e := Date(year, stMon, stDay), Date(year, endMon, endDay);
      && DeltaSeconds(year, stMon, stDay, endMon, endDay).Ok?
      && (DeltaSeconds(year, stMon, stDay, endMon, endDay).value > 0 <==> !Before(e, s))
      && (DeltaSeconds(year, stMon, stDay, endMon, endDay).value == 0 <==> NextDay(e) == s)
      && (DeltaSeconds(year, stMon, stDay, endMon, endDay).value < 0 <==> Before(NextDay(e), s))
  {
    var s, e := Date(year, stMon, stDay), Date(year, endMon, endDay);
    OrderByOrdinal(e, s);
    OrderByOrdinal(NextDay(e), s);
    if Ordinal(NextDay(e)) == Ordinal(s) {
      OrdinalInjective(NextDay(e), s);
    }
  }

  // ---------------------------------------------------------------------
  // get_current_time_info

  /** With no time elapsed the begin date is returned at hour 0. */
  lemma CurrentTimeInfoAtStart(beginMonth: int, beginDay: int, simYear: int)
    requires MinYear <= simYear <= MaxYear && ValidDate(Date(simYear, beginMonth, beginDay))
    ensures CurrentTimeInfo(beginMonth, beginDay, 0, simYear) == Ok((beginDay, beginMonth, 0))
  {
  }

  /** Moving forward, the result is the valid date whose ordinal is the begin
      date's plus the whole days elapsed, and the call fails only past 9999-12-31. */
  lemma CurrentTimeInfoForward(beginMonth: int, beginDay: int, secElapsed: int, simYear: int)
    requires MinYear <= simYear <= MaxYear && ValidDate(Date(simYear, beginMonth, beginDay))
    requires 0 <= secElapsed
    ensures var r := CurrentTimeInfo(beginMonth, beginDay, secElapsed, simYear);
            var start := Date(simYear, beginMonth, beginDay);
      && (r.Ok? <==> Ordinal(start) + secElapsed / SecondsPerDay <= MaxOrdinal)
      && (r.Ok? ==> exists y :: (simYear <= y <= MaxYear && ValidDate(Date(y, r.value.1, r.value.0))
                                 && Ordinal(Date(y, r.value.1, r.value.0)) == Ordinal(start) + secElapsed / SecondsPerDay))
      && (r.Ok? ==> r.value.2 == secElapsed % SecondsPerDay / SecondsPerHour)
  {
    var start := Date(simYear, beginMonth, beginDay);
    var target := AddDays(start, secElapsed / SecondsPerDay);
    InRangeIffOrdinal(target);
    InRangeIffOrdinal(start);
    if InRange(target) {
      OrderByOrdinal(target, start);
      assert ValidDate(Date(target.year, target.month, target.day));
    }
  }

  /** The last second of the `k + 1` days from a begin date lies in hour 23
      of the day `k` days later. */
  lemma LastSecondOfDays(stMon: int, stDay: int, simYear: int, k: int, e: Date, elapsed: int)
    requires MinYear <= simYear <= MaxYear && ValidDate(Date(simYear, stMon, stDay))
    requires ValidDate(e) && InRange(e) && Ordinal(e) == Ordinal(Date(simYear, stMon, stDay)) + k
    requires elapsed == SecondsPerDay * (k + 1) - 1
    ensures CurrentTimeInfo(stMon, stDay, elapsed, simYear) == Ok((e.day, e.month, 23))
  {
    assert elapsed / SecondsPerDay == k;
    assert elapsed % SecondsPerDay == 86399;
    AddDaysUnique(Date(simYear, stMon, stDay), k, e);
  }

  /** The last second of a run period falls in hour 23 of its end day:
      the two helpers agree on where a run period ends. */
  lemma LastSecondOfRunPeriod(year: int, stMon: int, stDay: int, endMon: int, endDay: int)
    requires DeltaSeconds(year, stMon, stDay, endMon, endDay).Ok?
    ensures var lastSecond := DeltaSeconds(year, stMon, stDay, endMon, endDay).value - 1;
            CurrentTimeInfo(stMon, stDay, lastSecond, year) == Ok((endDay, endMon, 23))
  {
    var x := DeltaSeconds(year, stMon, stDay, endMon, endDay).value - 1;
    assert CurrentTimeInfo(stMon, stDay, x, year) == Ok((endDay, endMon, 23)) by {
      var s, e := Date(year, stMon, stDay), Date(year, endMon, endDay);
      var k := Ordinal(e) - Ordinal(s);
      assert ValidDate(e) && InRange(e) && MinYear <= year <= MaxYear && ValidDate(s);
      assert x == SecondsPerDay * (k + 1) - 1;
      LastSecondOfDays(stMon, stDay, year, k, e, x);
    }
  }

  // ---------------------------------------------------------------------
  // Worked cases

  /** One day and two days in January. */
  lemma DeltaSecondsOneAndTwoDays()
    ensures DeltaSeconds(2021, 1, 1, 1, 1) == Ok(86400)
    ensures DeltaSeconds(2021, 1, 1, 1, 2) == Ok(172800)
  {
  }

  /** From February 28 to March 1 is three days in a leap year and two otherwise. */
  lemma DeltaSecondsAcrossFebruary()
    ensures DeltaSeconds(2020, 2, 28, 3, 1) == Ok(259200)
    ensures DeltaSeconds(2021, 2, 28, 3, 1) == Ok(172800)
  {
    assert Ordinal(Date(2020, 3, 1)) - Ordinal(Date(2020, 2, 28)) == 2 by {
      assert DaysBeforeMonth(2020, 3) == DaysBeforeMonth(2020, 2) + 29;
    }
    assert Ordinal(Date(2021, 3, 1)) - Ordinal(Date(2021, 2, 28)) == 1 by {
      assert DaysBeforeMonth(2021, 3) == DaysBeforeMonth(2021, 2) + 28;
    }
  }

  /** The whole of the default simulation year 1991 lasts 365 days. */
  lemma DeltaSecondsWholeYear()
    ensures DeltaSeconds(1991, 1, 1, 12, 31) == Ok(31536000)
  {
    assert Ordinal(Date(1991, 12, 31)) - Ordinal(Date(1991, 1, 1)) == 364 by {
      YearLength(1991);
      assert DaysBeforeMonth(1991, 13) == DaysBeforeMonth(1991, 12) + 31;
    }
  }

  /** An end date the day before the start gives 0; February 29 of a common year is refused. */
  lemma DeltaSecondsDegenerate()
    ensures DeltaSeconds(2021, 3, 2, 3, 1) == Ok(0)
    ensures DeltaSeconds(2021, 2, 29, 3, 1) == Err(DayOutOfRange)
  {
    DeltaSecondsErrors(2021, 2, 29, 3, 1);
  }

  /** Arguments beyond a C int overflow before any range check: year 2**31
      is an OverflowError, while year 0 is the year ValueError. */
  lemma DeltaSecondsHugeArguments()
    ensures DeltaSeconds(0x8000_0000, 1, 1, 1, 1) == Err(Overflow)
    ensures DeltaSeconds(0, 1, 0x8000_0000, 1, 1) == Err(Overflow)
    ensures DeltaSeconds(0, 1, 1, 1, 1) == Err(YearOutOfRange)
    ensures DeltaSeconds(2021, 1, 1, 1, -0x8000_0001) == Err(Overflow)
  {
    DeltaSecondsErrors(0x8000_0000, 1, 1, 1, 1);
    DeltaSecondsErrors(0, 1, 0x8000_0000, 1, 1);
    DeltaSecondsErrors(2021, 1, 1, 1, -0x8000_0001);
  }

  /** Hour 1 of the first day: 3661 seconds is one hour, one minute and one second. */
  lemma CurrentTimeInfoFirstHour()
    ensures CurrentTimeInfo(1, 1, 3661, 1991) == Ok((1, 1, 1))
  {
    var t := DateTime(Date(1991, 1, 1), 0, 0, 0);
    assert MakeDateTime(1991, 1, 1, 0, 0, 0) == Ok(t);
    assert AddDays(Date(1991, 1, 1), 0) == Date(1991, 1, 1);
    assert AddSeconds(t, 3661) == Ok(DateTime(Date(1991, 1, 1), 1, 1, 1));
  }

  /** A whole day after December 31 is January 1 of the next year. */
  lemma CurrentTimeInfoNewYear()
    ensures CurrentTimeInfo(12, 31, 86400, 1991) == Ok((1, 1, 0))
  {
    var t := DateTime(Date(1991, 12, 31), 0, 0, 0);
    assert MakeDateTime(1991, 12, 31, 0, 0, 0) == Ok(t);
    assert AddDays(Date(1991, 12, 31), 1) == Date(1992, 1, 1);
    assert AddSeconds(t, 86400) == Ok(DateTime(Date(1992, 1, 1), 0, 0, 0));
  }

  /** The day after February 28 is February 29 in a leap year. */
  lemma CurrentTimeInfoLeapDay()
    ensures CurrentTimeInfo(2, 28, 86400, 1992) == Ok((29, 2, 0))
  {
    var t := DateTime(Date(1992, 2, 28), 0, 0, 0);
    assert MakeDateTime(1992, 2, 28, 0, 0, 0) == Ok(t);
    assert AddDays(Date(1992, 2, 28), 1) == Date(1992, 2, 29);
    assert AddSeconds(t, 86400) == Ok(DateTime(Date(1992, 2, 29), 0, 0, 0));
  }

  /** The day after February 28 is March 1 in a common year. */
  lemma CurrentTimeInfoCommonYear()
    ensures CurrentTimeInfo(2, 28, 86400, 1991) == Ok((1, 3, 0))
  {
    var t := DateTime(Date(1991, 2, 28), 0, 0, 0);
    assert MakeDateTime(1991, 2, 28, 0, 0, 0) == Ok(t);
    assert AddDays(Date(1991, 2, 28), 1) == Date(1991, 3, 1);
    assert AddSeconds(t, 86400) == Ok(DateTime(Date(1991, 3, 1), 0, 0, 0));
  }

  /** A negative offset moves back: one second before March 1, 1992 is 23:59:59 on February 29. */
  lemma CurrentTimeInfoBackwards()
    ensures CurrentTimeInfo(3, 1, -1, 1992) == Ok((29, 2, 23))
  {
    var t := DateTime(Date(1992, 3, 1), 0, 0, 0);
    assert MakeDateTime(1992, 3, 1, 0, 0, 0) == Ok(t);
    assert AddDays(Date(1992, 3, 1), -1) == Date(1992, 2, 29);
    assert AddSeconds(t, -1) == Ok(DateTime(Date(1992, 2, 29), 23, 59, 59));
  }
}
