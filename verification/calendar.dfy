/**
 * The proleptic Gregorian calendar of Python's naive `datetime`, reduced to
 * what the analyser needs: validity of a broken-down date and time, and the
 * mapping of such a date and time onto a count of seconds ("instant") on
 * which `datetime` comparison and subtraction become integer comparison and
 * subtraction.
 */
module Calendar {

  const SecondsPerMinute: int := 60
  const SecondsPerHour: int := 3600
  const SecondsPerDay: int := 86400

  /** A broken-down naive date and time, as `datetime(year, month, day, hour, minute, second)`. */
  datatype DateTime = DateTime(year: int, month: int, day: int, hour: int, minute: int, second: int)

  predicate IsLeapYear(y: int) {
    y % 4 == 0 && (y % 100 != 0 || y % 400 == 0)
  }

  function DaysInYear(y: int): int {
    if IsLeapYear(y) then 366 else 365
  }

  function DaysInMonth(y: int, m: int): (n: int)
    requires 1 <= m <= 12
    ensures 28 <= n <= 31
    ensures n == 29 <==> m == 2 && IsLeapYear(y)
  {
    if m == 2 then (if IsLeapYear(y) then 29 else 28)
    else if m == 4 || m == 6 || m == 9 || m == 11 then 30
    else 31
  }

  /** The range `datetime` accepts: year 1..9999, the month's own day count, seconds 0..59. */
  predicate ValidDateTime(t: DateTime) {
    && 1 <= t.year <= 9999
    && 1 <= t.month <= 12
    && 1 <= t.day <= DaysInMonth(t.year, t.month)
    && 0 <= t.hour <= 23
    && 0 <= t.minute <= 59
    && 0 <= t.second <= 59
  }

  /** Days in the years 1 .. y-1 (the closed form Python's `datetime` uses). */
  function DaysBeforeYear(y: int): int
    requires y >= 1
  {
    var k := y - 1;
    k * 365 + k / 4 - k / 100 + k / 400
  }

  /** Days in the months 1 .. m-1 of year y. */
  function DaysBeforeMonth(y: int, m: int): int
    requires 1 <= m <= 12
  {
    var cumulative := [0, 31, 59, 90, 120, 151, 181, 212, 243, 273, 304, 334];
    cumulative[m - 1] + (if m > 2 && IsLeapYear(y) then 1 else 0)
  }

  /** Day number of a date, 0001-01-01 being day 1 (`date.toordinal()`). */
  function Ordinal(y: int, m: int, d: int): int
    requires y >= 1 && 1 <= m <= 12
  {
    DaysBeforeYear(y) + DaysBeforeMonth(y, m) + d
  }

  /** Seconds since the day starts. */
  function TimeOfDay(t: DateTime): int {
    t.hour * SecondsPerHour + t.minute * SecondsPerMinute + t.second
  }

  /** Seconds elapsed from 0001-01-01 00:00:00 to `t`. */
  function ToInstant(t: DateTime): (s: int)
    requires ValidDateTime(t)
    ensures s >= 0
  {
    (Ordinal(t.year, t.month, t.day) - 1) * SecondsPerDay + TimeOfDay(t)
  }

  /** The order in which `datetime` compares two values: field by field, most significant first. */
  predicate Before(a: DateTime, b: DateTime) {
    || a.year < b.year
    || (a.year == b.year && a.month < b.month)
    || (a.year == b.year && a.month == b.month && a.day < b.day)
    || (a.year == b.year && a.month == b.month && a.day == b.day && a.hour < b.hour)
    || (a.year == b.year && a.month == b.month && a.day == b.day && a.hour == b.hour && a.minute < b.minute)
    || (a.year == b.year && a.month == b.month && a.day == b.day && a.hour == b.hour && a.minute == b.minute
        && a.second < b.second)
  }

  /** Euclidean division by `n` steps up exactly when `k + 1` is a multiple of `n`. */
  lemma DivStep(k: int, n: int)
    requires k >= 0 && n in {4, 100, 400}
    ensures (k + 1) / n == k / n + (if (k + 1) % n == 0 then 1 else 0)
  {
  }

  /** Advancing one year adds exactly that year's length. */
  lemma {:induction false} DaysBeforeYearStep(y: int)
    requires y >= 1
    ensures DaysBeforeYear(y + 1) == DaysBeforeYear(y) + DaysInYear(y)
  {
    var k := y - 1;
    DivStep(k, 4);
    DivStep(k, 100);
    DivStep(k, 400);
    DivisibilityChain(y);
    var step := 365 + (if y % 4 == 0 then 1 else 0) - (if y % 100 == 0 then 1 else 0) + (if y % 400 == 0 then 1 else 0);
    assert DaysBeforeYear(y + 1) == DaysBeforeYear(y) + step;
    assert step == DaysInYear(y);
  }

  /** A multiple of 400 is a multiple of 100, and a multiple of 100 is a multiple of 4. */
  lemma DivisibilityChain(y: int)
    requires y >= 1
    ensures y % 400 == 0 ==> y % 100 == 0
    ensures y % 100 == 0 ==> y % 4 == 0
  {
  }

  lemma {:induction false} DaysBeforeYearMonotone(a: int, b: int)
    requires 1 <= a <= b
    ensures DaysBeforeYear(a) + (b - a) * 365 <= DaysBeforeYear(b)
    decreases b - a
  {
    if a < b {
      DaysBeforeYearMonotone(a, b - 1);
      DaysBeforeYearStep(b - 1);
    }
  }

  /** A valid date of year y lies before the first day of year y + 1. */
  lemma MonthFitsInYear(y: int, m: int, d: int)
    requires 1 <= m <= 12 && 1 <= d <= DaysInMonth(y, m)
    ensures DaysBeforeMonth(y, m) + d <= DaysInYear(y)
  {
  }

  lemma MonthsOrdered(y: int, m1: int, d1: int, m2: int, d2: int)
    requires 1 <= m1 < m2 <= 12
    requires 1 <= d1 <= DaysInMonth(y, m1) && 1 <= d2
    ensures DaysBeforeMonth(y, m1) + d1 < DaysBeforeMonth(y, m2) + d2
  {
  }

  lemma {:induction false} OrdinalOrdered(a: DateTime, b: DateTime)
    requires ValidDateTime(a) && ValidDateTime(b)
    requires a.year < b.year || (a.year == b.year && a.month < b.month)
          || (a.year == b.year && a.month == b.month && a.day < b.day)
    ensures Ordinal(a.year, a.month, a.day) < Ordinal(b.year, b.month, b.day)
  {
    if a.year < b.year {
      MonthFitsInYear(a.year, a.month, a.day);
      DaysBeforeYearStep(a.year);
      DaysBeforeYearMonotone(a.year + 1, b.year);
    } else if a.month < b.month {
      MonthsOrdered(a.year, a.month, a.day, b.month, b.day);
    }
  }

  /**
   * Comparing instants is comparing `datetime` values: the instant encoding
   * is strictly monotone in the field-by-field order, in both directions.
   */
  lemma {:induction false} InstantOrderIsDateTimeOrder(a: DateTime, b: DateTime)
    requires ValidDateTime(a) && ValidDateTime(b)
    ensures Before(a, b) <==> ToInstant(a) < ToInstant(b)
    ensures a == b <==> ToInstant(a) == ToInstant(b)
  {
    forall x: DateTime, y: DateTime | ValidDateTime(x) && ValidDateTime(y) && Before(x, y)
      ensures ToInstant(x) < ToInstant(y)
    {
      BeforeGivesSmallerInstant(x, y);
    }
    if a != b && !Before(a, b) {
      assert Before(b, a);
    }
  }

  lemma {:induction false} BeforeGivesSmallerInstant(a: DateTime, b: DateTime)
    requires ValidDateTime(a) && ValidDateTime(b) && Before(a, b)
    ensures ToInstant(a) < ToInstant(b)
  {
    var oa, ob := Ordinal(a.year, a.month, a.day), Ordinal(b.year, b.month, b.day);
    if a.year < b.year || (a.year == b.year && a.month < b.month)
      || (a.year == b.year && a.month == b.month && a.day < b.day)
    {
      OrdinalOrdered(a, b);
      assert (ob - 1) * SecondsPerDay - (oa - 1) * SecondsPerDay == (ob - oa) * SecondsPerDay;
    }
  }
}
