/** Calendar dates as (year, month, day) triples and the day numbers JavaScript's Date gives
    the local midnight `new Date(year, month - 1, day)`, following the MakeDay, DayFromYear
    and WeekDay definitions of ECMA-262 (time zones and daylight saving are not modelled). */
module Calendar {

  /** A calendar date with a 1-based month, as the todo list writes it in YYYY-MM-DD. */
  datatype CalDate = CalDate(year: int, month: int, day: int)

  predicate IsLeapYear(y: int) {
    y % 4 == 0 && (y % 100 != 0 || y % 400 == 0)
  }

  function DaysInYear(y: int): int {
    if IsLeapYear(y) then 366 else 365
  }

  function DaysInMonth(y: int, m: int): int
    requires 1 <= m <= 12
  {
    if m == 2 then (if IsLeapYear(y) then 29 else 28)
    else if m == 4 || m == 6 || m == 9 || m == 11 then 30
    else 31
  }

  /** A date that exists in the proleptic Gregorian calendar. */
  predicate Valid(d: CalDate) {
    1 <= d.month <= 12 && 1 <= d.day <= DaysInMonth(d.year, d.month)
  }

  /** Day number of January 1 of `y`, counted from 1970-01-01 (ECMA-262 DayFromYear; Dafny's
      division by a positive constant is the floor the standard asks for). */
  function DayFromYear(y: int): int {
    365 * (y - 1970) + (y - 1969) / 4 - (y - 1901) / 100 + (y - 1601) / 400
  }

  /** Days of year `y` that come before the month with 0-based index `m`. */
  function DaysBeforeMonth(y: int, m: int): int
    requires 0 <= m <= 11
  {
    [0, 31, 59, 90, 120, 151, 181, 212, 243, 273, 304, 334][m]
      + (if m >= 2 && IsLeapYear(y) then 1 else 0)
  }

  /** The day number of `new Date(d.year, d.month - 1, d.day)`: months outside 1..12 carry
      into the year and days past the month's end run on into the following days, as
      MakeDay does. */
  function DayNumber(d: CalDate): int {
    var ym := d.year + (d.month - 1) / 12;
    var mn := (d.month - 1) % 12;
    DayFromYear(ym) + DaysBeforeMonth(ym, mn) + d.day - 1
  }

  /** `getDay()` of day number `n`: 0 is Sunday; 1970-01-01 was a Thursday. */
  function WeekDay(n: int): (w: int)
    ensures 0 <= w < 7
  {
    (n + 4) % 7
  }

  /** The calendar date before `d`. */
  function PrevDay(d: CalDate): CalDate
    requires Valid(d)
  {
    if d.day > 1 then d.(day := d.day - 1)
    else if d.month > 1 then CalDate(d.year, d.month - 1, DaysInMonth(d.year, d.month - 1))
    else CalDate(d.year - 1, 12, 31)
  }

  /** The Sunday on or before day `n` (what `setDate(getDate() - getDay())` yields). */
  function WeekStart(n: int): (s: int)
    ensures WeekDay(s) == 0 && s <= n <= s + 6
  {
    n - WeekDay(n)
  }

  /** The day number of `new Date(y, m - 1, day)`: the constructor reads a year from 0 to 99
      as 1900 to 1999 before MakeDay. */
  function MakeDateDay(d: CalDate): int {
    DayNumber(d.(year := if 0 <= d.year <= 99 then 1900 + d.year else d.year))
  }

  /** The calendar date of day number `n` (what `getFullYear`, `getMonth` and `getDate`
      read back): the one valid date with that day number. */
  function DateOfDay(n: int): (r: CalDate)
    ensures Valid(r) && DayNumber(r) == n
  {
    var y := YearFrom(n, YearBelow(n, 1970));
    var m := MonthFrom(y, n - DayFromYear(y), 1);
    DayInMonth(y, m, n - DayFromYear(y));
    CalDate(y, m, n - DayFromYear(y) - DaysBeforeMonth(y, m - 1) + 1)
  }

  lemma DayInMonth(y: int, m: int, offset: int)
    requires 1 <= m <= 12
    requires DaysBeforeMonth(y, m - 1) <= offset < DaysBeforeMonth(y, m - 1) + DaysInMonth(y, m)
    ensures var d := CalDate(y, m, offset - DaysBeforeMonth(y, m - 1) + 1);
      Valid(d) && DayNumber(d) == DayFromYear(y) + offset
  {
    DayNumberInYear(CalDate(y, m, offset - DaysBeforeMonth(y, m - 1) + 1));
  }

  /** A year whose first day is on or before day `n`. */
  function YearBelow(n: int, y: int): (r: int)
    ensures DayFromYear(r) <= n
    decreases DayFromYear(y) - n
  {
    if DayFromYear(y) <= n then y
    else
      DayFromYearStep(y - 1);
      YearBelow(n, y - 1)
  }

  /** The year holding day `n`, searched upwards from a year that starts no later. */
  function YearFrom(n: int, y: int): (r: int)
    requires DayFromYear(y) <= n
    ensures DayFromYear(r) <= n < DayFromYear(r) + DaysInYear(r)
    decreases n - DayFromYear(y)
  {
    DayFromYearStep(y);
    if n < DayFromYear(y) + DaysInYear(y) then y else YearFrom(n, y + 1)
  }

  /** The month holding day `offset` of year `y` (0-based), searched from month `m`. */
  function MonthFrom(y: int, offset: int, m: int): (r: int)
    requires 1 <= m <= 12 && DaysBeforeMonth(y, m - 1) <= offset < DaysInYear(y)
    ensures 1 <= r <= 12
    ensures DaysBeforeMonth(y, r - 1) <= offset < DaysBeforeMonth(y, r - 1) + DaysInMonth(y, r)
    decreases 12 - m
  {
    DaysBeforeMonthStep(y, m);
    if offset < DaysBeforeMonth(y, m - 1) + DaysInMonth(y, m) then m else MonthFrom(y, offset, m + 1)
  }

  // ---------------------------------------------------------------------------------------
  // Day numbers of valid dates

  lemma DayFromYearStep(y: int)
    ensures DayFromYear(y + 1) == DayFromYear(y) + DaysInYear(y)
  {
    FourYearStep(y);
    CenturyStep(y);
    FourCenturyStep(y);
    LeapDivisors(y);
    assert DayFromYear(y + 1) - DayFromYear(y) ==
      365 + ((y - 1968) / 4 - (y - 1969) / 4) - ((y - 1900) / 100 - (y - 1901) / 100)
        + ((y - 1600) / 400 - (y - 1601) / 400);
  }

  /** A multiple of 400 is one of 100, and a multiple of 100 is one of 4. */
  lemma LeapDivisors(y: int)
    ensures y % 400 == 0 ==> y % 100 == 0
    ensures y % 100 == 0 ==> y % 4 == 0
  {
    if y % 400 == 0 {
      MultipleOfMultiple(y, 100, 4);
    }
    if y % 100 == 0 {
      MultipleOfMultiple(y, 4, 25);
    }
  }

  lemma MultipleOfMultiple(y: int, a: int, b: int)
    requires 0 < a && 0 < b && y % (a * b) == 0
    ensures y % a == 0
  {
    var k := y / (a * b);
    assert y == (a * b) * k;
    assert y == a * (b * k);
  }

  /** The leap-day counts of DayFromYear grow by one exactly at multiples of 4, 100, 400. */
  lemma FourYearStep(y: int)
    ensures (y - 1968) / 4 - (y - 1969) / 4 == if y % 4 == 0 then 1 else 0
  {
  }

  lemma CenturyStep(y: int)
    ensures (y - 1900) / 100 - (y - 1901) / 100 == if y % 100 == 0 then 1 else 0
  {
  }

  lemma FourCenturyStep(y: int)
    ensures (y - 1600) / 400 - (y - 1601) / 400 == if y % 400 == 0 then 1 else 0
  {
  }

  /** A later year starts no earlier than the end of an earlier one. */
  lemma {:induction false} DayFromYearIncreasing(a: int, b: int)
    requires a < b
    ensures DayFromYear(a) + DaysInYear(a) <= DayFromYear(b)
    decreases b - a
  {
    DayFromYearStep(a);
    if a + 1 < b {
      DayFromYearIncreasing(a + 1, b);
    }
  }

  lemma DaysBeforeMonthStep(y: int, m: int)
    requires 1 <= m <= 12
    ensures DaysBeforeMonth(y, m - 1) + DaysInMonth(y, m)
            == if m < 12 then DaysBeforeMonth(y, m) else DaysInYear(y)
  {
  }

  lemma {:induction false} DaysBeforeMonthIncreasing(y: int, a: int, b: int)
    requires 1 <= a < b <= 12
    ensures DaysBeforeMonth(y, a - 1) + DaysInMonth(y, a) <= DaysBeforeMonth(y, b - 1)
    decreases b - a
  {
    DaysBeforeMonthStep(y, a);
    if a + 1 < b {
      DaysBeforeMonthIncreasing(y, a + 1, b);
      DaysBeforeMonthStep(y, a + 1);
    }
  }

  /** The day number of a valid date falls inside its year. */
  lemma DayNumberInYear(d: CalDate)
    requires Valid(d)
    ensures DayFromYear(d.year) <= DayNumber(d) < DayFromYear(d.year) + DaysInYear(d.year)
    ensures DayNumber(d) == DayFromYear(d.year) + DaysBeforeMonth(d.year, d.month - 1) + d.day - 1
  {
    DaysBeforeMonthStep(d.year, d.month);
    if d.month < 12 {
      DaysBeforeMonthIncreasing(d.year, d.month, 12);
      DaysBeforeMonthStep(d.year, 12);
    }
  }

  /** On valid dates, equal day numbers (the `getTime()` comparison of two local midnights)
      mean equal calendar dates, and conversely. */
  lemma DayNumberInjective(a: CalDate, b: CalDate)
    requires Valid(a) && Valid(b)
    ensures DayNumber(a) == DayNumber(b) <==> a == b
  {
    if DayNumber(a) == DayNumber(b) {
      if a.year < b.year {
        EarlierYearEarlierDay(a, b);
        assert false;
      } else if b.year < a.year {
        EarlierYearEarlierDay(b, a);
        assert false;
      } else if a.month < b.month {
        EarlierMonthEarlierDay(a, b);
        assert false;
      } else if b.month < a.month {
        EarlierMonthEarlierDay(b, a);
        assert false;
      } else {
        DayNumberInYear(a);
        DayNumberInYear(b);
      }
    }
  }

  /** Every day of an earlier year comes before every day of a later one. */
  lemma EarlierYearEarlierDay(a: CalDate, b: CalDate)
    requires Valid(a) && Valid(b) && a.year < b.year
    ensures DayNumber(a) < DayNumber(b)
  {
    DayNumberInYear(a);
    DayNumberInYear(b);
    DayFromYearIncreasing(a.year, b.year);
  }

  /** Within a year, every day of an earlier month comes before every day of a later one. */
  lemma EarlierMonthEarlierDay(a: CalDate, b: CalDate)
    requires Valid(a) && Valid(b) && a.year == b.year && a.month < b.month
    ensures DayNumber(a) < DayNumber(b)
  {
    DayNumberInYear(a);
    DayNumberInYear(b);
    DaysBeforeMonthIncreasing(a.year, a.month, b.month);
  }

  /** PrevDay is the calendar date whose day number is one less. */
  lemma PrevDayIsPredecessor(d: CalDate)
    requires Valid(d)
    ensures Valid(PrevDay(d))
    ensures DayNumber(PrevDay(d)) == DayNumber(d) - 1
  {
    if d.day > 1 {
      DayNumberInYear(d);
      DayNumberInYear(PrevDay(d));
    } else if d.month > 1 {
      PrevDayAcrossMonth(d);
    } else {
      PrevDayAcrossYear(d);
    }
  }

  lemma PrevDayAcrossMonth(d: CalDate)
    requires Valid(d) && d.day == 1 && d.month > 1
    ensures Valid(PrevDay(d)) && DayNumber(PrevDay(d)) == DayNumber(d) - 1
  {
    var p := PrevDay(d);
    DayNumberInYear(d);
    DayNumberInYear(p);
    DaysBeforeMonthStep(d.year, d.month - 1);
  }

  lemma PrevDayAcrossYear(d: CalDate)
    requires Valid(d) && d.day == 1 && d.month == 1
    ensures Valid(PrevDay(d)) && DayNumber(PrevDay(d)) == DayNumber(d) - 1
  {
    var p := PrevDay(d);
    assert p == CalDate(d.year - 1, 12, 31);
    DayNumberInYear(d);
    DayNumberInYear(p);
    DayFromYearStep(d.year - 1);
    DaysBeforeMonthStep(d.year - 1, 12);
  }

  /** Reading back the date of a valid date's day number gives that date. */
  lemma DateOfDayNumber(d: CalDate)
    requires Valid(d)
    ensures DateOfDay(DayNumber(d)) == d
  {
    DayNumberInjective(DateOfDay(DayNumber(d)), d);
  }

  /** For negative years and years from 100 on, `new Date(y, m - 1, day)` is plain MakeDay:
      only years 0 to 99 are moved to the 1900s. */
  lemma MakeDateDayFrom100(d: CalDate)
    requires d.year >= 100 || d.year < 0
    ensures MakeDateDay(d) == DayNumber(d)
  {
  }

  /** Two days share their Sunday exactly when the second lies in the seven days from the
      first's Sunday on. */
  lemma SameWeekStart(n: int, m: int)
    ensures WeekStart(n) <= m <= WeekStart(n) + 6 <==> WeekStart(m) == WeekStart(n)
  {
    var s := WeekStart(n);
    if s <= m <= s + 6 {
      assert (s + 4) % 7 == 0;
      assert (m + 4) % 7 == m - s;
    }
  }
}
