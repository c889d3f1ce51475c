/** The part of ECMAScript's `Date.UTC` (ECMA-262, section 21.4.3.4, with the day and
    date helpers of section 21.4.1) that the controller relies on: a year, a
    0-based month and a day of month become a time value in milliseconds since
    the epoch, with out-of-range months and days normalised arithmetically. */
module UtcDate {
  import opened Options

  /** Milliseconds in one day (msPerDay). */
  const MsPerDay: int := 86_400_000
  /** Largest magnitude of a valid time value, in milliseconds (TimeClip). */
  const MaxTimeValue: int := 8_640_000_000_000_000

  /** Day number of January 1st of year `y`; day 0 is 1970-01-01 (DayFromYear). */
  function DayFromYear(y: int): int {
    365 * (y - 1970) + (y - 1969) / 4 - (y - 1901) / 100 + (y - 1601) / 400
  }

  /** Number of days in year `y` of the proleptic Gregorian calendar (DaysInYear). */
  function DaysInYear(y: int): int {
    if y % 4 != 0 then 365
    else if y % 100 != 0 then 366
    else if y % 400 != 0 then 365
    else 366
  }

  /** Number of days in the 0-based month `m` of year `y`. */
  function DaysInMonth(y: int, m: int): int
    requires 0 <= m < 12
  {
    if m == 1 then (if DaysInYear(y) == 366 then 29 else 28)
    else if m == 3 || m == 5 || m == 8 || m == 10 then 30
    else 31
  }

  /** Days of year `y` before the first of 0-based month `m`. */
  function DaysBeforeMonth(y: int, m: int): (r: int)
    requires 0 <= m <= 12
    ensures 28 * m <= r <= 31 * m
  {
    if m == 0 then 0 else DaysBeforeMonth(y, m - 1) + DaysInMonth(y, m - 1)
  }

  /** MakeDay: the day number of day `date` of 0-based month `month` of `year`.
      A month outside 0..11 moves the year by whole years, and a date outside the
      month simply counts on from the first of the month. */
  function MakeDay(year: int, month: int, date: int): int {
    var ym := year + month / 12;
    var mn := month % 12;
    DayFromYear(ym) + DaysBeforeMonth(ym, mn) + date - 1
  }

  /** The date argument of `MakeDay` counts days one by one. */
  lemma MakeDayCountsDates(year: int, month: int, date: int)
    ensures MakeDay(year, month, date + 1) == MakeDay(year, month, date) + 1
  {
  }

  /** TimeClip: a time value beyond 8.64e15 ms either side of the epoch is NaN (`None`). */
  function TimeClip(t: int): Option<int> {
    if -MaxTimeValue <= t <= MaxTimeValue then Some(t) else None
  }

  /** The year `Date.UTC` actually uses: 0..99 means 1900..1999. */
  function FullYear(y: int): int {
    if 0 <= y <= 99 then 1900 + y else y
  }

  /** `Date.UTC(year, month, date, 0, 0, 0, 0)`, where `None` stands for NaN in and out. */
  function DateUtc(year: Option<int>, month: Option<int>, date: Option<int>): (r: Option<int>)
    ensures r.Some? ==> year.Some? && month.Some? && date.Some?
    ensures r.Some? ==> r.value % MsPerDay == 0 && -MaxTimeValue <= r.value <= MaxTimeValue
    ensures r.Some? ==> r.value / MsPerDay == MakeDay(FullYear(year.value), month.value, date.value)
    ensures year.Some? && month.Some? && date.Some?
      && -MaxTimeValue <= MakeDay(FullYear(year.value), month.value, date.value) * MsPerDay <= MaxTimeValue
      ==> r.Some?
  {
    if year.Some? && month.Some? && date.Some? then
      var day := MakeDay(FullYear(year.value), month.value, date.value);
      DayTimesMsPerDay(day);
      TimeClip(day * MsPerDay)
    else None
  }

  lemma DayTimesMsPerDay(day: int)
    ensures (day * MsPerDay) % MsPerDay == 0 && (day * MsPerDay) / MsPerDay == day
  {
  }

  /** `Date.UTC` of a day whose number is well inside the time-value range is that
      day's midnight. */
  lemma DateUtcOfDay(y: int, m0: int, d: int, day: int)
    requires MakeDay(FullYear(y), m0, d) == day && -100_000_000 <= day <= 100_000_000
    ensures DateUtc(Some(y), Some(m0), Some(d)) == Some(day * MsPerDay)
  {
  }

  // ---------------------------------------------------------------------------
  // The calendar the day numbers count

  /** A calendar date with a 1-based month. */
  datatype CivilDate = CivilDate(year: int, month: int, day: int)

  /** `d` names a day that exists in the proleptic Gregorian calendar. */
  predicate Valid(d: CivilDate) {
    1 <= d.month <= 12 && 1 <= d.day <= DaysInMonth(d.year, d.month - 1)
  }

  /** The calendar's successor of a valid date, stated independently of day numbers. */
  function NextDate(d: CivilDate): (r: CivilDate)
    requires Valid(d)
    ensures Valid(r)
  {
    if d.day < DaysInMonth(d.year, d.month - 1) then CivilDate(d.year, d.month, d.day + 1)
    else if d.month < 12 then CivilDate(d.year, d.month + 1, 1)
    else CivilDate(d.year + 1, 1, 1)
  }

  /** Day number of a calendar date, counted from 1970-01-01. */
  function DayNumber(d: CivilDate): int {
    MakeDay(d.year, d.month - 1, d.day)
  }

  /** `d1` comes before `d2` in the calendar (lexicographic order). */
  predicate Before(d1: CivilDate, d2: CivilDate) {
    || d1.year < d2.year
    || (d1.year == d2.year && d1.month < d2.month)
    || (d1.year == d2.year && d1.month == d2.month && d1.day < d2.day)
  }

  // ---------------------------------------------------------------------------
  // Day-number arithmetic

  /** One more leap day of each kind is counted exactly when `y` itself is a multiple. */
  lemma LeapStep4(y: int)
    ensures ((y + 1) - 1969) / 4 == (y - 1969) / 4 + (if y % 4 == 0 then 1 else 0)
  {
  }

  lemma LeapStep100(y: int)
    ensures ((y + 1) - 1901) / 100 == (y - 1901) / 100 + (if y % 100 == 0 then 1 else 0)
  {
  }

  lemma LeapStep400(y: int)
    ensures ((y + 1) - 1601) / 400 == (y - 1601) / 400 + (if y % 400 == 0 then 1 else 0)
  {
  }

  /** The Gregorian rule as a count: 365 days, plus one every 4 years, minus one every
      100 years, plus one every 400 years. */
  lemma DaysInYearCounts(y: int)
    ensures DaysInYear(y) == 365 + (if y % 4 == 0 then 1 else 0)
      - (if y % 100 == 0 then 1 else 0) + (if y % 400 == 0 then 1 else 0)
  {
    if y % 400 == 0 {
      var k := y / 400;
      assert y == 100 * (4 * k);
    }
    if y % 100 == 0 {
      var k := y / 100;
      assert y == 4 * (25 * k);
    }
  }

  /** Consecutive years start exactly one year-length apart. */
  lemma DayFromYearStep(y: int)
    ensures DayFromYear(y + 1) == DayFromYear(y) + DaysInYear(y)
  {
    LeapStep4(y);
    LeapStep100(y);
    LeapStep400(y);
    DaysInYearCounts(y);
  }

  /** The twelve months add up to the year. */
  lemma MonthsFillYear(y: int)
    ensures DaysBeforeMonth(y, 12) == DaysInYear(y)
  {
    assert DaysBeforeMonth(y, 1) == 31;
    assert DaysBeforeMonth(y, 2) == 31 + DaysInMonth(y, 1);
    assert DaysBeforeMonth(y, 3) == DaysBeforeMonth(y, 2) + 31;
    assert DaysBeforeMonth(y, 4) == DaysBeforeMonth(y, 3) + 30;
    assert DaysBeforeMonth(y, 5) == DaysBeforeMonth(y, 4) + 31;
    assert DaysBeforeMonth(y, 6) == DaysBeforeMonth(y, 5) + 30;
    assert DaysBeforeMonth(y, 7) == DaysBeforeMonth(y, 6) + 31;
    assert DaysBeforeMonth(y, 8) == DaysBeforeMonth(y, 7) + 31;
    assert DaysBeforeMonth(y, 9) == DaysBeforeMonth(y, 8) + 30;
    assert DaysBeforeMonth(y, 10) == DaysBeforeMonth(y, 9) + 31;
    assert DaysBeforeMonth(y, 11) == DaysBeforeMonth(y, 10) + 30;
    assert DaysBeforeMonth(y, 12) == DaysBeforeMonth(y, 11) + 31;
  }

  /** Earlier months start earlier, and a month ends no later than the year. */
  lemma {:induction false} DaysBeforeMonthMonotone(y: int, m1: int, m2: int)
    requires 0 <= m1 < m2 <= 12
    ensures DaysBeforeMonth(y, m1) + DaysInMonth(y, m1) <= DaysBeforeMonth(y, m2)
    decreases m2 - m1
  {
    if m1 + 1 < m2 {
      DaysBeforeMonthMonotone(y, m1 + 1, m2);
    }
  }

  /** For a valid date `MakeDay` needs no month normalisation. */
  lemma DayNumberOfValid(d: CivilDate)
    requires 1 <= d.month <= 12
    ensures DayNumber(d) == DayFromYear(d.year) + DaysBeforeMonth(d.year, d.month - 1) + d.day - 1
  {
    MakeDayInYear(d.year, d.month - 1, d.day);
  }

  /** The day number of a valid date falls inside its own year. */
  lemma DayNumberInYear(d: CivilDate)
    requires Valid(d)
    ensures DayFromYear(d.year) <= DayNumber(d) < DayFromYear(d.year) + DaysInYear(d.year)
  {
    DayNumberOfValid(d);
    MonthsFillYear(d.year);
    DaysBeforeMonthMonotone(d.year, d.month - 1, 12);
  }

  /** Every earlier year ends before a later year begins. */
  lemma {:induction false} DayFromYearMonotone(y1: int, y2: int)
    requires y1 < y2
    ensures DayFromYear(y1) + DaysInYear(y1) <= DayFromYear(y2)
    decreases y2 - y1
  {
    DayFromYearStep(y1);
    if y1 + 1 < y2 {
      DayFromYearMonotone(y1 + 1, y2);
    }
  }

  /** Within one year, a day of an earlier month, or an earlier day of the same month, comes first. */
  lemma DayOfYearMonotone(y: int, m1: int, day1: int, m2: int, day2: int)
    requires 0 <= m1 <= m2 < 12 && day1 <= DaysInMonth(y, m1)
    requires m1 < m2 || day1 < day2
    requires 1 <= day2
    ensures DaysBeforeMonth(y, m1) + day1 < DaysBeforeMonth(y, m2) + day2
  {
    if m1 < m2 {
      DaysBeforeMonthMonotone(y, m1, m2);
    }
  }

  lemma DayNumberMonotoneWithinYear(d1: CivilDate, d2: CivilDate)
    requires Valid(d1) && Valid(d2) && d1.year == d2.year && Before(d1, d2)
    ensures DayNumber(d1) < DayNumber(d2)
  {
    DayNumberOfValid(d1);
    DayNumberOfValid(d2);
    DayOfYearMonotone(d1.year, d1.month - 1, d1.day, d2.month - 1, d2.day);
  }

  lemma DayNumberMonotoneAcrossYears(d1: CivilDate, d2: CivilDate)
    requires Valid(d1) && Valid(d2) && d1.year < d2.year
    ensures DayNumber(d1) < DayNumber(d2)
  {
    DayNumberInYear(d1);
    DayNumberInYear(d2);
    DayFromYearMonotone(d1.year, d2.year);
  }

  /** Day numbers follow calendar order. */
  lemma DayNumberMonotone(d1: CivilDate, d2: CivilDate)
    requires Valid(d1) && Valid(d2) && Before(d1, d2)
    ensures DayNumber(d1) < DayNumber(d2)
  {
    if d1.year < d2.year {
      DayNumberMonotoneAcrossYears(d1, d2);
    } else {
      DayNumberMonotoneWithinYear(d1, d2);
    }
  }

  /** Distinct valid dates have distinct day numbers, so their day buckets never overlap. */
  lemma DayNumberInjective(d1: CivilDate, d2: CivilDate)
    requires Valid(d1) && Valid(d2) && DayNumber(d1) == DayNumber(d2)
    ensures d1 == d2
  {
    if Before(d1, d2) {
      DayNumberMonotone(d1, d2);
    } else if Before(d2, d1) {
      DayNumberMonotone(d2, d1);
    }
  }

  /** A month inside 0..11 needs no normalisation. */
  lemma MakeDayInYear(year: int, m0: int, date: int)
    requires 0 <= m0 < 12
    ensures MakeDay(year, m0, date) == DayFromYear(year) + DaysBeforeMonth(year, m0) + date - 1
  {
    assert m0 / 12 == 0 && m0 % 12 == m0;
  }

  /** `MakeDay`'s normalisation agrees with the calendar: one past the given day is
      the day number of the next calendar date, across month and year ends and leap days. */
  lemma DayAfterIsNextDate(d: CivilDate)
    requires Valid(d)
    ensures MakeDay(d.year, d.month - 1, d.day + 1) == DayNumber(NextDate(d))
  {
    var m := d.month - 1;
    if d.day == DaysInMonth(d.year, m) {
      if d.month < 12 {
        DayAfterMonthEnd(d.year, m);
      } else {
        DayAfterYearEnd(d.year);
      }
    }
  }

  /** The next calendar date is numbered one more. */
  lemma NextDateIsNextDay(d: CivilDate)
    requires Valid(d)
    ensures DayNumber(NextDate(d)) == DayNumber(d) + 1
  {
    MakeDayCountsDates(d.year, d.month - 1, d.day);
    DayAfterIsNextDate(d);
  }

  lemma DayAfterMonthEnd(y: int, m: int)
    requires 0 <= m < 11
    ensures MakeDay(y, m, DaysInMonth(y, m) + 1) == MakeDay(y, m + 1, 1)
  {
    MakeDayInYear(y, m, DaysInMonth(y, m) + 1);
    MakeDayInYear(y, m + 1, 1);
  }

  lemma DayAfterYearEnd(y: int)
    ensures MakeDay(y, 11, 32) == MakeDay(y + 1, 0, 1)
  {
    calc {
      MakeDay(y, 11, 32);
      { MakeDayInYear(y, 11, 32); }
      DayFromYear(y) + DaysBeforeMonth(y, 11) + 31;
      DayFromYear(y) + DaysBeforeMonth(y, 12);
      { MonthsFillYear(y); }
      DayFromYear(y) + DaysInYear(y);
      { DayFromYearStep(y); }
      DayFromYear(y + 1);
      { MakeDayInYear(y + 1, 0, 1); }
      MakeDay(y + 1, 0, 1);
    }
  }

  /** A valid date within 100000 years of year 0 lies well inside the time-value range. */
  lemma DayNumberInRange(d: CivilDate)
    requires Valid(d) && -100_000 <= d.year <= 100_000
    ensures -100_000_000 < DayNumber(d) && DayNumber(d) + 1 < 100_000_000
  {
    DayNumberInYear(d);
  }

  /** `Date.UTC` of a real calendar date is the midnight starting it. Years 0 to 99
      are read as 1900 to 1999, so the date is the one in the year actually used. */
  lemma DateUtcOfCivilDate(y: int, m: int, d: int)
    requires -100_000 <= y <= 100_000 && Valid(CivilDate(FullYear(y), m, d))
    ensures DateUtc(Some(y), Some(m - 1), Some(d))
      == Some(DayNumber(CivilDate(FullYear(y), m, d)) * MsPerDay)
  {
    var date := CivilDate(FullYear(y), m, d);
    DayNumberInRange(date);
    DateUtcOfDay(y, m - 1, d, DayNumber(date));
  }

  /** `Date.UTC` of the day after a real calendar date is the midnight starting the
      next calendar date. */
  lemma DateUtcOfDayAfter(y: int, m: int, d: int)
    requires -100_000 <= y <= 100_000 && Valid(CivilDate(FullYear(y), m, d))
    ensures DateUtc(Some(y), Some(m - 1), Some(d + 1))
      == Some(DayNumber(NextDate(CivilDate(FullYear(y), m, d))) * MsPerDay)
  {
    var date := CivilDate(FullYear(y), m, d);
    var day := DayNumber(date);
    DayNumberInRange(date);
    NextDateIsNextDay(date);
    DateUtcOfNextDay(y, m - 1, d, day);
  }

  lemma DateUtcOfNextDay(y: int, m0: int, d: int, day: int)
    requires MakeDay(FullYear(y), m0, d) == day && -100_000_000 <= day < 100_000_000
    ensures DateUtc(Some(y), Some(m0), Some(d + 1)) == Some((day + 1) * MsPerDay)
  {
    MakeDayCountsDates(FullYear(y), m0, d);
    DateUtcOfDay(y, m0, d + 1, day + 1);
  }

  /** A time value lies in the UTC day starting at day number `day` exactly when it rounds down to that day. */
  lemma InDayIffDayOf(t: int, day: int)
    ensures (day * MsPerDay <= t < (day + 1) * MsPerDay) <==> t / MsPerDay == day
  {
  }
}
