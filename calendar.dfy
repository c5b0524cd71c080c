/** The part of Python's `datetime` that energym/utils/common.py relies on:
    the proleptic Gregorian calendar, day ordinals (0001-01-01 is day 1),
    the `datetime(...)` constructor with its range checks, and
    `datetime + timedelta` / `datetime - datetime` at whole-second resolution
    (the helpers never produce microseconds). */
module Calendar {
  import opened Results

  const MinYear := 1
  const MaxYear := 9999
  /** Ordinal of 9999-12-31, the last day a Python `date` can hold. */
  const MaxOrdinal := 3652059
  const SecondsPerDay := 86400
  const SecondsPerHour := 3600
  /** The range of a C `int`, the type the `datetime` constructor parses its
      arguments into before any range check. */
  const CIntMin := -0x8000_0000
  const CIntMax := 0x7FFF_FFFF

  datatype Date = Date(year: int, month: int, day: int)

  datatype DateTime = DateTime(date: Date, hour: int, minute: int, second: int)

  /** The exceptions that the `datetime` constructor and `datetime + timedelta` raise. */
  datatype DateError =
    | YearOutOfRange   // ValueError from the constructor
    | MonthOutOfRange  // ValueError from the constructor
    | DayOutOfRange    // ValueError from the constructor
    | TimeOutOfRange   // ValueError from the constructor
    | Overflow         // OverflowError: an argument beyond a C int, or a sum past year 9999

  // ---------------------------------------------------------------------
  // Calendar tables

  /** Every fourth year, except centuries not divisible by 400. */
  predicate IsLeapYear(y: int) {
    y % 4 == 0 && (y % 100 != 0 || y % 400 == 0)
  }

  function DaysInMonth(y: int, m: int): (n: int)
    requires 1 <= m <= 12
    ensures 28 <= n <= 31
  {
    if m == 2 then (if IsLeapYear(y) then 29 else 28)
    else if m == 4 || m == 6 || m == 9 || m == 11 then 30
    else 31
  }

  function DaysInYear(y: int): int {
    if IsLeapYear(y) then 366 else 365
  }

  /** Days of year `y` before the first of month `m`; `m == 13` gives the whole year. */
  function DaysBeforeMonth(y: int, m: int): (n: int)
    requires 1 <= m <= 13
    ensures 0 <= n
  {
    if m == 1 then 0 else DaysBeforeMonth(y, m - 1) + DaysInMonth(y, m - 1)
  }

  /** Days before January 1 of year `y`, with floor division as in Python's
      `_days_before_year`; Dafny's `/` by a positive constant is the floor. */
  function DaysBeforeYear(y: int): int {
    var p := y - 1;
    p * 365 + p / 4 - p / 100 + p / 400
  }

  /** A month in 1..12 and a day within that month, for any proleptic year. */
  predicate ValidDate(d: Date) {
    1 <= d.month <= 12 && 1 <= d.day <= DaysInMonth(d.year, d.month)
  }

  /** The years a Python `datetime` can represent. */
  predicate InRange(d: Date) {
    MinYear <= d.year <= MaxYear
  }

  function Ordinal(d: Date): int
    requires 1 <= d.month <= 12
  {
    DaysBeforeYear(d.year) + DaysBeforeMonth(d.year, d.month) + d.day
  }

  /** Strict calendar order: earlier year, or same year and earlier month, or same month and earlier day. */
  predicate Before(a: Date, b: Date) {
    a.year < b.year
    || (a.year == b.year && a.month < b.month)
    || (a.year == b.year && a.month == b.month && a.day < b.day)
  }

  // ---------------------------------------------------------------------
  // Facts about the tables

  /** The twelve months add up to the length of the year. */
  lemma YearLength(y: int)
    ensures DaysBeforeMonth(y, 13) == DaysInYear(y)
  {
    assert DaysBeforeMonth(y, 2) == 31;
    assert DaysBeforeMonth(y, 3) == DaysBeforeMonth(y, 2) + DaysInMonth(y, 2);
    assert DaysBeforeMonth(y, 4) == DaysBeforeMonth(y, 3) + 31;
    assert DaysBeforeMonth(y, 5) == DaysBeforeMonth(y, 4) + 30;
    assert DaysBeforeMonth(y, 6) == DaysBeforeMonth(y, 5) + 31;
    assert DaysBeforeMonth(y, 7) == DaysBeforeMonth(y, 6) + 30;
    assert DaysBeforeMonth(y, 8) == DaysBeforeMonth(y, 7) + 31;
    assert DaysBeforeMonth(y, 9) == DaysBeforeMonth(y, 8) + 31;
    assert DaysBeforeMonth(y, 10) == DaysBeforeMonth(y, 9) + 30;
    assert DaysBeforeMonth(y, 11) == DaysBeforeMonth(y, 10) + 31;
    assert DaysBeforeMonth(y, 12) == DaysBeforeMonth(y, 11) + 30;
  }

  /** Consecutive year starts are one year length apart. */
  lemma YearStep(y: int)
    ensures DaysBeforeYear(y + 1) == DaysBeforeYear(y) + DaysInYear(y)
  {
    var p := y - 1;
    assert (p + 1) / 4 == p / 4 + (if y % 4 == 0 then 1 else 0);
    assert (p + 1) / 100 == p / 100 + (if y % 100 == 0 then 1 else 0);
    assert (p + 1) / 400 == p / 400 + (if y % 400 == 0 then 1 else 0);
    assert y % 400 == 0 ==> y % 100 == 0;
    assert y % 100 == 0 ==> y % 4 == 0;
  }

  lemma {:induction false} DaysBeforeYearMonotone(a: int, b: int)
    requires a <= b
    ensures DaysBeforeYear(a) + 365 * (b - a) <= DaysBeforeYear(b)
    decreases b - a
  {
    if a < b {
      DaysBeforeYearMonotone(a, b - 1);
      YearStep(b - 1);
    }
  }

  lemma {:induction false} DaysBeforeMonthMonotone(y: int, m: int, n: int)
    requires 1 <= m <= n <= 13
    ensures DaysBeforeMonth(y, m) + 28 * (n - m) <= DaysBeforeMonth(y, n)
    decreases n - m
  {
    if m < n {
      DaysBeforeMonthMonotone(y, m, n - 1);
    }
  }

  /** A valid date lies inside its own year's ordinal range. */
  lemma OrdinalWithinYear(d: Date)
    requires ValidDate(d)
    ensures DaysBeforeYear(d.year) < Ordinal(d) <= DaysBeforeYear(d.year + 1)
  {
    DaysBeforeMonthMonotone(d.year, d.month + 1, 13);
    YearLength(d.year);
    YearStep(d.year);
  }

  /** Day ordinals follow the calendar order. */
  lemma OrdinalMonotone(a: Date, b: Date)
    requires ValidDate(a) && ValidDate(b) && Before(a, b)
    ensures Ordinal(a) < Ordinal(b)
  {
    if a.year < b.year {
      OrdinalWithinYear(a);
      OrdinalWithinYear(b);
      DaysBeforeYearMonotone(a.year + 1, b.year);
    } else if a.month < b.month {
      DaysBeforeMonthMonotone(a.year, a.month + 1, b.month);
    }
  }

  /** Distinct valid dates have distinct ordinals. */
  lemma OrdinalInjective(a: Date, b: Date)
    requires ValidDate(a) && ValidDate(b) && Ordinal(a) == Ordinal(b)
    ensures a == b
  {
    if Before(a, b) {
      OrdinalMonotone(a, b);
    } else if Before(b, a) {
      OrdinalMonotone(b, a);
    }
  }

  /** For valid dates, `Before` is exactly the order of the ordinals. */
  lemma OrderByOrdinal(a: Date, b: Date)
    requires ValidDate(a) && ValidDate(b)
    ensures Before(a, b) <==> Ordinal(a) < Ordinal(b)
  {
    if Before(a, b) {
      OrdinalMonotone(a, b);
    } else if Before(b, a) {
      OrdinalMonotone(b, a);
    }
  }

  /** A valid date is representable exactly when its ordinal is in 1..MaxOrdinal,
      the test Python's date arithmetic applies. */
  lemma InRangeIffOrdinal(d: Date)
    requires ValidDate(d)
    ensures InRange(d) <==> 1 <= Ordinal(d) <= MaxOrdinal
  {
    OrdinalWithinYear(d);
    assert DaysBeforeYear(MinYear) == 0;
    assert DaysBeforeYear(MaxYear + 1) == MaxOrdinal;
    if d.year < MinYear {
      DaysBeforeYearMonotone(d.year + 1, MinYear);
    } else if d.year > MaxYear {
      DaysBeforeYearMonotone(MaxYear + 1, d.year);
    } else {
      DaysBeforeYearMonotone(MinYear, d.year);
      DaysBeforeYearMonotone(d.year + 1, MaxYear + 1);
    }
  }

  // ---------------------------------------------------------------------
  // Moving by whole days

  /** The following day, rolling over month and year ends. */
  function NextDay(d: Date): (r: Date)
    requires ValidDate(d)
    ensures ValidDate(r) && Ordinal(r) == Ordinal(d) + 1
  {
    if d.day < DaysInMonth(d.year, d.month) then Date(d.year, d.month, d.day + 1)
    else if d.month < 12 then Date(d.year, d.month + 1, 1)
    else
      YearLength(d.year);
      YearStep(d.year);
      Date(d.year + 1, 1, 1)
  }

  /** The preceding day, rolling back over month and year starts. */
  function PrevDay(d: Date): (r: Date)
    requires ValidDate(d)
    ensures ValidDate(r) && Ordinal(r) == Ordinal(d) - 1
  {
    if d.day > 1 then Date(d.year, d.month, d.day - 1)
    else if d.month > 1 then Date(d.year, d.month - 1, DaysInMonth(d.year, d.month - 1))
    else
      YearLength(d.year - 1);
      YearStep(d.year - 1);
      Date(d.year - 1, 12, 31)
  }

  /** The date `n` days after `d` (before it when `n < 0`), on the unbounded calendar. */
  function AddDays(d: Date, n: int): (r: Date)
    requires ValidDate(d)
    ensures ValidDate(r) && Ordinal(r) == Ordinal(d) + n
    decreases if n < 0 then -n else n
  {
    if n == 0 then d
    else if n > 0 then AddDays(NextDay(d), n - 1)
    else AddDays(PrevDay(d), n + 1)
  }

  /** AddDays lands on the one valid date with the target ordinal. */
  lemma AddDaysUnique(d: Date, n: int, e: Date)
    requires ValidDate(d) && ValidDate(e)
    ensures AddDays(d, n) == e <==> Ordinal(e) == Ordinal(d) + n
  {
    if Ordinal(e) == Ordinal(d) + n {
      OrdinalInjective(AddDays(d, n), e);
    }
  }

  /** Going forward and back by the same number of days returns to the start. */
  lemma AddDaysInverse(d: Date, n: int)
    requires ValidDate(d)
    ensures AddDays(AddDays(d, n), -n) == d
  {
    AddDaysUnique(AddDays(d, n), -n, d);
  }

  // ---------------------------------------------------------------------
  // Date-times

  predicate ValidDateTime(t: DateTime) {
    ValidDate(t.date) && InRange(t.date)
    && 0 <= t.hour < 24 && 0 <= t.minute < 60 && 0 <= t.second < 60
  }

  function SecondOfDay(t: DateTime): int {
    t.hour * SecondsPerHour + t.minute * 60 + t.second
  }

  predicate FitsCInt(x: int) {
    CIntMin <= x <= CIntMax
  }

  /** Every argument can be read as a C `int`. */
  predicate ArgsFit(y: int, mo: int, d: int, h: int, mi: int, s: int) {
    FitsCInt(y) && FitsCInt(mo) && FitsCInt(d) && FitsCInt(h) && FitsCInt(mi) && FitsCInt(s)
  }

  /** `datetime(y, mo, d, h, mi, s)`: CPython first reads every argument as a
      C `int` (OverflowError), then checks the fields in order: year, month,
      day, then the time of day (ValueError). */
  function MakeDateTime(y: int, mo: int, d: int, h: int, mi: int, s: int): (r: Result<DateTime, DateError>)
    ensures r.Ok? <==> ValidDateTime(DateTime(Date(y, mo, d), h, mi, s))
    ensures r.Ok? ==> r.value.date == Date(y, mo, d) && r.value.hour == h
                      && r.value.minute == mi && r.value.second == s
    ensures !ArgsFit(y, mo, d, h, mi, s) ==> r == Err(Overflow)
    ensures r.Err? && ArgsFit(y, mo, d, h, mi, s) && !(MinYear <= y <= MaxYear) ==> r.error == YearOutOfRange
    ensures r.Err? && ArgsFit(y, mo, d, h, mi, s) && MinYear <= y <= MaxYear && !(1 <= mo <= 12) ==> r.error == MonthOutOfRange
    ensures r.Err? && ArgsFit(y, mo, d, h, mi, s) && MinYear <= y <= MaxYear && 1 <= mo <= 12 && !ValidDate(Date(y, mo, d))
            ==> r.error == DayOutOfRange
    ensures r.Err? && ArgsFit(y, mo, d, h, mi, s) && MinYear <= y <= MaxYear && ValidDate(Date(y, mo, d)) ==> r.error == TimeOutOfRange
  {
    if !ArgsFit(y, mo, d, h, mi, s) then Err(Overflow)
    else if !(MinYear <= y <= MaxYear) then Err(YearOutOfRange)
    else if !(1 <= mo <= 12) then Err(MonthOutOfRange)
    else if !(1 <= d <= DaysInMonth(y, mo)) then Err(DayOutOfRange)
    else if !(0 <= h < 24 && 0 <= mi < 60 && 0 <= s < 60) then Err(TimeOutOfRange)
    else Ok(DateTime(Date(y, mo, d), h, mi, s))
  }

  /** How two valid date-times compare: by their day ordinals, then by the
      second of the day, which pins down the hour, minute and second. */
  lemma CompareInstants(a: DateTime, b: DateTime)
    requires ValidDateTime(a) && ValidDateTime(b)
    ensures Before(a.date, b.date) <==> Ordinal(a.date) < Ordinal(b.date)
    ensures a.date == b.date <==> Ordinal(a.date) == Ordinal(b.date)
    ensures a == b <==> a.date == b.date && SecondOfDay(a) == SecondOfDay(b)
  {
    OrderByOrdinal(a.date, b.date);
    if Ordinal(a.date) == Ordinal(b.date) {
      OrdinalInjective(a.date, b.date);
    }
    if SecondOfDay(a) == SecondOfDay(b) {
      assert (a.hour - b.hour) * 3600 + (a.minute - b.minute) * 60 + (a.second - b.second) == 0;
      assert a.hour == b.hour;
      assert a.minute == b.minute;
    }
  }

  /** `(b - a).total_seconds()`: between valid date-times it is zero only
      for equal ones, and positive exactly when `b` is later. */
  function SecondsBetween(a: DateTime, b: DateTime): (r: int)
    requires 1 <= a.date.month <= 12 && 1 <= b.date.month <= 12
    ensures ValidDateTime(a) && ValidDateTime(b) ==> (r == 0 <==> a == b)
    ensures ValidDateTime(a) && ValidDateTime(b) ==>
              (r > 0 <==> Before(a.date, b.date) || (a.date == b.date && SecondOfDay(a) < SecondOfDay(b)))
  {
    if ValidDateTime(a) && ValidDateTime(b) then
      CompareInstants(a, b);
      (Ordinal(b.date) - Ordinal(a.date)) * SecondsPerDay + SecondOfDay(b) - SecondOfDay(a)
    else
      (Ordinal(b.date) - Ordinal(a.date)) * SecondsPerDay + SecondOfDay(b) - SecondOfDay(a)
  }

  /** Floor division of a second count into whole days and a time of day. */
  lemma SplitSeconds(total: int)
    ensures var sod := total % SecondsPerDay;
      && total == total / SecondsPerDay * SecondsPerDay + sod
      && 0 <= sod / SecondsPerHour < 24 && 0 <= sod % SecondsPerHour / 60 < 60 && 0 <= sod % 60 < 60
      && sod == sod / SecondsPerHour * SecondsPerHour + sod % SecondsPerHour / 60 * 60 + sod % 60
  {
  }

  /** `t + timedelta(seconds=s)`: whole days (floor) move the date, the
      remainder becomes the time of day; a date outside years 1..9999 overflows. */
  function AddSeconds(t: DateTime, s: int): (r: Result<DateTime, DateError>)
    requires ValidDateTime(t)
    ensures r.Ok? ==> ValidDateTime(r.value) && SecondsBetween(t, r.value) == s
    ensures r.Err? ==> r.error == Overflow
  {
    var total := SecondOfDay(t) + s;
    var date := AddDays(t.date, total / SecondsPerDay);
    var sod := total % SecondsPerDay;
    SplitSeconds(total);
    if InRange(date) then
      Ok(DateTime(date, sod / SecondsPerHour, sod % SecondsPerHour / 60, sod % 60))
    else
      Err(Overflow)
  }

  /** The addition fails exactly when the target day's ordinal leaves 1..MaxOrdinal,
      as Python checks it. */
  lemma AddSecondsOverflow(t: DateTime, s: int)
    requires ValidDateTime(t)
    ensures AddSeconds(t, s).Ok?
        <==> 1 <= Ordinal(t.date) + (SecondOfDay(t) + s) / SecondsPerDay <= MaxOrdinal
  {
    InRangeIffOrdinal(AddDays(t.date, (SecondOfDay(t) + s) / SecondsPerDay));
  }

  /** A valid date-time is determined by its distance in seconds from any other. */
  lemma SecondsBetweenInjective(a: DateTime, b: DateTime, c: DateTime)
    requires ValidDateTime(a) && ValidDateTime(b) && ValidDateTime(c)
    requires SecondsBetween(a, b) == SecondsBetween(a, c)
    ensures b == c
  {
    var db, dc := Ordinal(b.date), Ordinal(c.date);
    assert (db - dc) * 86400 == SecondOfDay(c) - SecondOfDay(b);
    OrdinalInjective(b.date, c.date);
    assert b.hour == c.hour;
    assert b.minute == c.minute;
  }

  /** The successful result of AddSeconds is the one valid date-time `s` seconds after `t`. */
  lemma AddSecondsUnique(t: DateTime, s: int, u: DateTime)
    requires ValidDateTime(t) && ValidDateTime(u) && SecondsBetween(t, u) == s
    ensures AddSeconds(t, s) == Ok(u)
  {
    AddSecondsOverflow(t, s);
    var n := (SecondOfDay(t) + s) / SecondsPerDay;
    assert Ordinal(u.date) == Ordinal(t.date) + n;
    InRangeIffOrdinal(u.date);
    SecondsBetweenInjective(t, AddSeconds(t, s).value, u);
  }
}
