/**
 * Proleptic Gregorian calendar dates as used by Python's `datetime`:
 * years 1..9999, month lengths and leap years as in section 5.7 of RFC 3339,
 * and a day number (days since 0001-01-01) that gives `(b - a).days`.
 */
module Calendar {
  import opened Wrappers

  /** A parsed `YYYY-MM-DD` date. */
  datatype Date = Date(year: int, month: int, day: int)

  const MinYear := 1
  const MaxYear := 9999

  /** The first day representable by `datetime`; its day number is 0. */
  const Epoch := Date(1, 1, 1)

  predicate IsLeapYear(y: int) {
    y % 4 == 0 && (y % 100 != 0 || y % 400 == 0)
  }

  function DaysInMonth(y: int, m: int): int
    requires 1 <= m <= 12
  {
    if m == 2 then (if IsLeapYear(y) then 29 else 28)
    else if m == 4 || m == 6 || m == 9 || m == 11 then 30
    else 31
  }

  function YearLength(y: int): int {
    if IsLeapYear(y) then 366 else 365
  }

  /** What `strptime(s, "%Y-%m-%d")` accepts, on the parsed fields. */
  predicate ValidDate(d: Date) {
    && MinYear <= d.year <= MaxYear
    && 1 <= d.month <= 12
    && 1 <= d.day <= DaysInMonth(d.year, d.month)
  }

  /** Strict chronological order on dates: lexicographic on (year, month, day). */
  predicate DateLt(a: Date, b: Date) {
    || a.year < b.year
    || (a.year == b.year && a.month < b.month)
    || (a.year == b.year && a.month == b.month && a.day < b.day)
  }

  predicate DateLe(a: Date, b: Date) {
    DateLt(a, b) || a == b
  }

  /** Days in the months of year `y` that precede month `m`. */
  function DaysBeforeMonth(y: int, m: int): (r: int)
    requires 1 <= m <= 13
    ensures 0 <= r <= 31 * (m - 1)
  {
    if m == 1 then 0 else DaysBeforeMonth(y, m - 1) + DaysInMonth(y, m - 1)
  }

  /** Days in the years that precede year `y`, counted from year 1. */
  function DaysBeforeYear(y: int): (r: int)
    requires y >= 1
    ensures 365 * (y - 1) <= r <= 366 * (y - 1)
  {
    if y == 1 then 0 else DaysBeforeYear(y - 1) + YearLength(y - 1)
  }

  /** Days elapsed since 0001-01-01 (Python's `toordinal() - 1`). */
  function DayNumber(d: Date): int
    requires ValidDate(d)
  {
    DaysBeforeYear(d.year) + DaysBeforeMonth(d.year, d.month) + d.day - 1
  }

  lemma MonthsFillYear(y: int)
    ensures DaysBeforeMonth(y, 13) == YearLength(y)
    ensures DaysBeforeMonth(y, 12) + 31 == YearLength(y)
  {
    assert DaysBeforeMonth(y, 2) == 31;
    assert DaysBeforeMonth(y, 3) == 31 + DaysInMonth(y, 2);
    assert DaysBeforeMonth(y, 4) == 62 + DaysInMonth(y, 2);
    assert DaysBeforeMonth(y, 5) == 92 + DaysInMonth(y, 2);
    assert DaysBeforeMonth(y, 6) == 123 + DaysInMonth(y, 2);
    assert DaysBeforeMonth(y, 7) == 153 + DaysInMonth(y, 2);
    assert DaysBeforeMonth(y, 8) == 184 + DaysInMonth(y, 2);
    assert DaysBeforeMonth(y, 9) == 215 + DaysInMonth(y, 2);
    assert DaysBeforeMonth(y, 10) == 245 + DaysInMonth(y, 2);
    assert DaysBeforeMonth(y, 11) == 276 + DaysInMonth(y, 2);
    assert DaysBeforeMonth(y, 12) == 306 + DaysInMonth(y, 2);
    assert DaysBeforeMonth(y, 13) == 337 + DaysInMonth(y, 2);
  }

  /** A month ends no later than any later month begins. */
  lemma {:induction false} MonthEndsBefore(y: int, m1: int, m2: int)
    requires 1 <= m1 < m2 <= 13
    ensures DaysBeforeMonth(y, m1) + DaysInMonth(y, m1) <= DaysBeforeMonth(y, m2)
    decreases m2
  {
    if m2 > m1 + 1 {
      MonthEndsBefore(y, m1, m2 - 1);
    }
  }

  /** A year ends no later than any later year begins. */
  lemma {:induction false} YearEndsBefore(y1: int, y2: int)
    requires 1 <= y1 < y2
    ensures DaysBeforeYear(y1) + YearLength(y1) <= DaysBeforeYear(y2)
    decreases y2
  {
    if y2 > y1 + 1 {
      YearEndsBefore(y1, y2 - 1);
    }
  }

  /** The day number of a valid date lies inside its own year. */
  lemma DayNumberInYear(d: Date)
    requires ValidDate(d)
    ensures DaysBeforeYear(d.year) <= DayNumber(d) < DaysBeforeYear(d.year) + YearLength(d.year)
  {
    MonthsFillYear(d.year);
    if d.month < 12 {
      MonthEndsBefore(d.year, d.month, 12);
    }
  }

  /** Chronological order on dates is order on day numbers. */
  lemma DayNumberStrictlyMonotone(a: Date, b: Date)
    requires ValidDate(a) && ValidDate(b)
    ensures DateLt(a, b) <==> DayNumber(a) < DayNumber(b)
  {
    if DateLt(a, b) {
      DayNumberIncreases(a, b);
    } else if a != b {
      assert DateLt(b, a);
      DayNumberIncreases(b, a);
    }
  }

  lemma DayNumberIncreases(a: Date, b: Date)
    requires ValidDate(a) && ValidDate(b) && DateLt(a, b)
    ensures DayNumber(a) < DayNumber(b)
  {
    if a.year < b.year {
      DayNumberInYear(a);
      YearEndsBefore(a.year, b.year);
    } else if a.month < b.month {
      MonthEndsBefore(a.year, a.month, b.month);
    }
  }

  /** `DateLe` is exactly `<=` on day numbers; in particular equal day numbers mean equal dates. */
  lemma DateLeIffDayNumber(a: Date, b: Date)
    requires ValidDate(a) && ValidDate(b)
    ensures DateLe(a, b) <==> DayNumber(a) <= DayNumber(b)
    ensures DayNumber(a) == DayNumber(b) <==> a == b
  {
    DayNumberStrictlyMonotone(a, b);
    DayNumberStrictlyMonotone(b, a);
  }

  lemma PrevDayInMonth(d: Date)
    requires ValidDate(d) && d.day > 1
    ensures ValidDate(Date(d.year, d.month, d.day - 1))
    ensures DayNumber(Date(d.year, d.month, d.day - 1)) == DayNumber(d) - 1
  {
  }

  lemma PrevDayAcrossMonth(d: Date)
    requires ValidDate(d) && d.day == 1 && d.month > 1
    ensures ValidDate(Date(d.year, d.month - 1, DaysInMonth(d.year, d.month - 1)))
    ensures DayNumber(Date(d.year, d.month - 1, DaysInMonth(d.year, d.month - 1))) == DayNumber(d) - 1
  {
    assert DaysBeforeMonth(d.year, d.month) == DaysBeforeMonth(d.year, d.month - 1) + DaysInMonth(d.year, d.month - 1);
  }

  lemma PrevDayAcrossYear(d: Date)
    requires ValidDate(d) && d.day == 1 && d.month == 1 && d.year > MinYear
    ensures ValidDate(Date(d.year - 1, 12, 31))
    ensures DayNumber(Date(d.year - 1, 12, 31)) == DayNumber(d) - 1
  {
    MonthsFillYear(d.year - 1);
    assert DaysBeforeYear(d.year) == DaysBeforeYear(d.year - 1) + YearLength(d.year - 1);
  }

  /** The calendar day before `d`. */
  function PrevDay(d: Date): (p: Date)
    requires ValidDate(d) && d != Epoch
    ensures ValidDate(p)
    ensures DayNumber(p) == DayNumber(d) - 1
  {
    if d.day > 1 then
      PrevDayInMonth(d);
      Date(d.year, d.month, d.day - 1)
    else if d.month > 1 then
      PrevDayAcrossMonth(d);
      Date(d.year, d.month - 1, DaysInMonth(d.year, d.month - 1))
    else
      PrevDayAcrossYear(d);
      Date(d.year - 1, 12, 31)
  }

  /** Every valid date other than 0001-01-01 has a positive day number. */
  lemma LaterThanEpoch(d: Date)
    requires ValidDate(d) && d != Epoch
    ensures DayNumber(d) > 0
  {
    DateLeIffDayNumber(d, Epoch);
  }

  /** The date `n` days before `d`, or None when that falls before 0001-01-01
      (Python raises OverflowError there). */
  function SubDays(d: Date, n: nat): (r: Option<Date>)
    requires ValidDate(d)
    ensures r.Some? <==> DayNumber(d) >= n
    ensures r.Some? ==> ValidDate(r.value) && DayNumber(r.value) == DayNumber(d) - n
    decreases DayNumber(d)
  {
    if n == 0 then Some(d)
    else if d == Epoch then None
    else
      LaterThanEpoch(d);
      SubDays(PrevDay(d), n - 1)
  }
}
