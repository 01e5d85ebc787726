/** Proleptic Gregorian calendar dates, as Python's `datetime.date` sees them.

    The rotation rules only ever need three things of a date: whether it is
    valid, how many days have passed since 1 January of its own year, and its
    weekday with Monday = 0. The day count since 0001-01-01 (`Ordinal`) is the
    same quantity Python's `date.toordinal()` returns, and the weekday is
    derived from it exactly as Python derives `weekday()`.
 */
module Dates {
  import opened Arith

  datatype Date = Date(year: int, month: int, day: int)

  /** The last year Python's `datetime` can represent. */
  const MaxYear: int := 9999

  predicate IsLeap(y: int) {
    y % 4 == 0 && (y % 100 != 0 || y % 400 == 0)
  }

  function DaysInYear(y: int): (r: int)
    ensures r == 365 || r == 366
    ensures r == 366 <==> IsLeap(y)
  {
    if IsLeap(y) then 366 else 365
  }

  function DaysInMonth(y: int, m: int): (r: int)
    requires 1 <= m <= 12
    ensures 28 <= r <= 31
    ensures r == 29 <==> m == 2 && IsLeap(y)
  {
    if m == 2 then (if IsLeap(y) then 29 else 28)
    else if m == 4 || m == 6 || m == 9 || m == 11 then 30
    else 31
  }

  predicate Valid(d: Date) {
    && 1 <= d.year <= MaxYear
    && 1 <= d.month <= 12
    && 1 <= d.day <= DaysInMonth(d.year, d.month)
  }

  /** Days in the months before `m` of year `y`, from the cumulative table
      a common year has, plus one after February of a leap year. */
  function DaysBeforeMonth(y: int, m: int): (r: nat)
    requires 1 <= m <= 12
  {
    [0, 31, 59, 90, 120, 151, 181, 212, 243, 273, 304, 334][m - 1]
      + (if m > 2 && IsLeap(y) then 1 else 0)
  }

  /** The cumulative table agrees with the month lengths: each month starts
      where the previous one ends, and December ends where the year does. */
  lemma DaysBeforeMonthConsistent(y: int, m: int)
    requires 1 <= m <= 12
    ensures m < 12 ==> DaysBeforeMonth(y, m + 1) == DaysBeforeMonth(y, m) + DaysInMonth(y, m)
    ensures m == 12 ==> DaysBeforeMonth(y, m) + DaysInMonth(y, m) == DaysInYear(y)
  {
  }

  /** Days from 1 January of the date's own year: `(d - datetime(d.year, 1, 1)).days`. */
  function DayOfYear0(d: Date): (r: nat)
    requires Valid(d)
    ensures r < DaysInYear(d.year)
    ensures d.month == 1 ==> r == d.day - 1
  {
    DaysBeforeMonthConsistent(d.year, d.month);
    DaysBeforeMonth(d.year, d.month) + d.day - 1
  }

  /** Days in the years before `y`, counted from year 1. */
  function DaysBeforeYear(y: int): (r: int)
    requires y >= 1
    ensures r >= 0
  {
    var x := y - 1;
    x * 365 + x / 4 - x / 100 + x / 400
  }

  /** Consecutive years are `DaysInYear` apart. */
  lemma DaysBeforeYearStep(y: int)
    requires y >= 1
    ensures DaysBeforeYear(y + 1) == DaysBeforeYear(y) + DaysInYear(y)
  {
    var x := y - 1;
    assert DaysBeforeYear(y + 1) == y * 365 + y / 4 - y / 100 + y / 400;
    assert DaysBeforeYear(y) == x * 365 + x / 4 - x / 100 + x / 400;
    assert y * 365 == x * 365 + 365;
    DivStep(y, 4);
    DivStep(y, 100);
    DivStep(y, 400);
    LeapByResidues(y);
  }

  /** The leap-year rule as the three century corrections add up. */
  lemma LeapByResidues(y: int)
    ensures (if y % 4 == 0 then 1 else 0) - (if y % 100 == 0 then 1 else 0) + (if y % 400 == 0 then 1 else 0)
            == (if IsLeap(y) then 1 else 0)
  {
    if y % 400 == 0 {
      DivUnique(y, 100, 4 * (y / 400), 0);
    }
    if y % 100 == 0 {
      DivUnique(y, 4, 25 * (y / 100), 0);
    }
  }

  /** Python's `toordinal()`: 0001-01-01 is day 1. */
  function Ordinal(d: Date): (r: int)
    requires Valid(d)
    ensures r >= 1
    ensures r == DaysBeforeYear(d.year) + DayOfYear0(d) + 1
  {
    DaysBeforeYear(d.year) + DaysBeforeMonth(d.year, d.month) + d.day
  }

  /** Python's `weekday()`: Monday is 0 and Sunday is 6. */
  function Weekday(d: Date): (r: int)
    requires Valid(d)
    ensures 0 <= r < 7
  {
    (Ordinal(d) + 6) % 7
  }

  const Saturday: int := 5
  const Sunday: int := 6

  /** The calendar day after `d`. It is a valid date unless `d` is 9999-12-31. */
  function NextDay(d: Date): (r: Date)
    requires Valid(d)
    ensures d.year <= r.year <= d.year + 1
    ensures Valid(r) <==> !(d.year == MaxYear && d.month == 12 && d.day == 31)
  {
    if d.day < DaysInMonth(d.year, d.month) then Date(d.year, d.month, d.day + 1)
    else if d.month < 12 then Date(d.year, d.month + 1, 1)
    else Date(d.year + 1, 1, 1)
  }

  /** The next day is one day further along, within its year and in absolute count. */
  lemma NextDayAdvances(d: Date)
    requires Valid(d) && Valid(NextDay(d))
    ensures NextDay(d).year == d.year ==> DayOfYear0(NextDay(d)) == DayOfYear0(d) + 1
    ensures NextDay(d).year != d.year ==> DayOfYear0(NextDay(d)) == 0 && DayOfYear0(d) == DaysInYear(d.year) - 1
    ensures Ordinal(NextDay(d)) == Ordinal(d) + 1
  {
    DaysBeforeMonthConsistent(d.year, d.month);
    if NextDay(d).year != d.year {
      DaysBeforeYearStep(d.year);
    }
  }

  /** The weekday cycles Monday, ..., Sunday, Monday from one day to the next. */
  lemma NextDayWeekday(d: Date)
    requires Valid(d) && Valid(NextDay(d))
    ensures Weekday(NextDay(d)) == (Weekday(d) + 1) % 7
  {
    NextDayAdvances(d);
    ModSucc(Ordinal(d) + 6, 7);
  }

  /** Python's anchor: 0001-01-01 was a Monday; 1 January 2025 was a
      Wednesday, Christmas 2025 a Thursday and Christmas 2026 a Friday. */
  lemma KnownWeekdays()
    ensures Valid(Date(1, 1, 1)) && Weekday(Date(1, 1, 1)) == 0
    ensures Valid(Date(2025, 1, 1)) && Weekday(Date(2025, 1, 1)) == 2
    ensures Valid(Date(2025, 12, 25)) && Weekday(Date(2025, 12, 25)) == 3
    ensures Valid(Date(2026, 12, 25)) && Weekday(Date(2026, 12, 25)) == 4
  {
  }

  /** A day of January 2025: `day - 1` days into the year, and a Monday
      exactly when `day` is 6, 13, 20 or 27. */
  lemma January2025(day: int)
    requires 1 <= day <= 31
    ensures Valid(Date(2025, 1, day)) && DayOfYear0(Date(2025, 1, day)) == day - 1
    ensures Weekday(Date(2025, 1, day)) == (day + 1) % 7
  {
    assert DaysBeforeYear(2025) == 739251;
    assert Ordinal(Date(2025, 1, day)) + 6 == 7 * 105608 + (day + 1);
  }

  /** 6-9 January 2025 run Monday to Thursday; 1 January, 22 January and 19 February
      are 0, 21 and 49 days into the year. */
  lemma SecondWeekOf2025()
    ensures Valid(Date(2025, 1, 6)) && Weekday(Date(2025, 1, 6)) == 0
    ensures Valid(Date(2025, 1, 7)) && Weekday(Date(2025, 1, 7)) == 1
    ensures Valid(Date(2025, 1, 8)) && Weekday(Date(2025, 1, 8)) == 2
    ensures Valid(Date(2025, 1, 9)) && Weekday(Date(2025, 1, 9)) == 3
    ensures Valid(Date(2025, 1, 1)) && DayOfYear0(Date(2025, 1, 1)) == 0
    ensures Valid(Date(2025, 1, 22)) && DayOfYear0(Date(2025, 1, 22)) == 21
    ensures Valid(Date(2025, 2, 19)) && DayOfYear0(Date(2025, 2, 19)) == 49
  {
    January2025(6);
    January2025(7);
    January2025(8);
    January2025(9);
    January2025(1);
    January2025(22);
  }
}
