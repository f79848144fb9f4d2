/** The proleptic Gregorian calendar that Python's `datetime` uses, with its
    ordinal day numbers (0001-01-01 is day 1).  `ToOrdinal` is days-from-civil,
    `FromOrdinal` civil-from-days; moving a date by whole days goes through them,
    as `datetime - timedelta(days=n)` does. */
module Calendar {
  import opened Wrappers

  const MIN_YEAR := 1
  const MAX_YEAR := 9999

  predicate IsLeap(y: int) {
    y % 4 == 0 && (y % 100 != 0 || y % 400 == 0)
  }

  function DaysInYear(y: int): int {
    if IsLeap(y) then 366 else 365
  }

  function DaysInMonth(y: int, m: int): (r: int)
    requires 1 <= m <= 12
    ensures 28 <= r <= 31
  {
    if m == 2 then (if IsLeap(y) then 29 else 28)
    else if m == 4 || m == 6 || m == 9 || m == 11 then 30
    else 31
  }

  datatype Date = Date(year: int, month: int, day: int)

  /** A real calendar day on or after 0001-01-01 (no upper bound on the year). */
  predicate WellFormed(d: Date) {
    d.year >= MIN_YEAR && 1 <= d.month <= 12 && 1 <= d.day <= DaysInMonth(d.year, d.month)
  }

  /** A date `datetime` can represent: years 1 to 9999. */
  predicate InRange(d: Date) {
    WellFormed(d) && d.year <= MAX_YEAR
  }

  /** Days in the years before `y`, year 1 contributing none. */
  function DaysBeforeYear(y: int): nat
    requires y >= MIN_YEAR
    decreases y
  {
    if y == MIN_YEAR then 0 else DaysBeforeYear(y - 1) + DaysInYear(y - 1)
  }

  /** The closed form `datetime` computes the same count with: 365 days a year plus
      one for every fourth year, less the centuries, plus every fourth century. */
  lemma {:induction false} DaysBeforeYearClosedForm(y: int)
    requires y >= MIN_YEAR
    ensures DaysBeforeYear(y) == (y - 1) * 365 + (y - 1) / 4 - (y - 1) / 100 + (y - 1) / 400
    decreases y
  {
    if y > MIN_YEAR {
      DaysBeforeYearClosedForm(y - 1);
      var p := y - 2;
      QuotientSteps(p);
      LeapCount(p + 1);
    }
  }

  /** A leap year counts once for being a fourth year, minus once for being a
      century, plus once for being a fourth century. */
  lemma LeapCount(x: int)
    ensures DaysInYear(x) == 365 + (if x % 4 == 0 then 1 else 0)
      - (if x % 100 == 0 then 1 else 0) + (if x % 400 == 0 then 1 else 0)
  {
    if x % 400 == 0 {
      assert x == 400 * (x / 400);
      assert x == 100 * (4 * (x / 400));
      assert x == 4 * (100 * (x / 400));
    } else if x % 100 == 0 {
      assert x == 4 * (25 * (x / 100));
    }
  }

  /** Counting one further changes each of the quotients by 4, 100 and 400 by one
      exactly when it reaches a multiple of the divisor. */
  lemma QuotientSteps(p: nat)
    ensures (p + 1) / 4 == p / 4 + (if (p + 1) % 4 == 0 then 1 else 0)
    ensures (p + 1) / 100 == p / 100 + (if (p + 1) % 100 == 0 then 1 else 0)
    ensures (p + 1) / 400 == p / 400 + (if (p + 1) % 400 == 0 then 1 else 0)
  {
  }

  /** Days in the months of year `y` before month `m`; month 13 stands for the end of the year. */
  function DaysBeforeMonth(y: int, m: int): nat
    requires 1 <= m <= 13
  {
    [0, 31, 59, 90, 120, 151, 181, 212, 243, 273, 304, 334, 365][m - 1]
      + (if m > 2 && IsLeap(y) then 1 else 0)
  }

  lemma MonthStep(y: int, m: int)
    requires 1 <= m <= 12
    ensures DaysBeforeMonth(y, m + 1) == DaysBeforeMonth(y, m) + DaysInMonth(y, m)
  {
  }

  lemma {:induction false} YearsOrdered(a: int, b: int)
    requires MIN_YEAR <= a < b
    ensures DaysBeforeYear(a + 1) <= DaysBeforeYear(b)
    decreases b - a
  {
    if a + 1 < b {
      YearsOrdered(a, b - 1);
    }
  }

  lemma MonthsOrdered(y: int, a: int, b: int)
    requires 1 <= a < b <= 12
    ensures DaysBeforeMonth(y, a + 1) <= DaysBeforeMonth(y, b)
  {
  }

  /** Days-from-civil: the ordinal of a date, 0001-01-01 being day 1. */
  function ToOrdinal(d: Date): (n: int)
    requires WellFormed(d)
    ensures DaysBeforeYear(d.year) < n <= DaysBeforeYear(d.year + 1)
    ensures DaysBeforeMonth(d.year, d.month) < n - DaysBeforeYear(d.year) <= DaysBeforeMonth(d.year, d.month + 1)
  {
    MonthStep(d.year, d.month);
    DaysBeforeYear(d.year) + DaysBeforeMonth(d.year, d.month) + d.day
  }

  /** The year holding day `n`, searched for upwards from year `y`. */
  function FindYear(n: int, y: int): (r: int)
    requires y >= MIN_YEAR && DaysBeforeYear(y) < n
    ensures r >= y && DaysBeforeYear(r) < n <= DaysBeforeYear(r + 1)
    decreases n - DaysBeforeYear(y)
  {
    if n <= DaysBeforeYear(y + 1) then y else FindYear(n, y + 1)
  }

  /** The month holding day `k` of year `y`, searched for upwards from month `m`. */
  function FindMonth(y: int, k: int, m: int): (r: int)
    requires 1 <= m <= 12 && DaysBeforeMonth(y, m) < k <= DaysInYear(y)
    ensures m <= r <= 12 && DaysBeforeMonth(y, r) < k <= DaysBeforeMonth(y, r + 1)
    decreases 12 - m
  {
    if k <= DaysBeforeMonth(y, m + 1) then m else FindMonth(y, k, m + 1)
  }

  /** Civil-from-days: the date whose ordinal is `n`. */
  function FromOrdinal(n: int): (d: Date)
    requires n >= 1
    ensures WellFormed(d) && ToOrdinal(d) == n
  {
    var y := FindYear(n, MIN_YEAR);
    var m := FindMonth(y, n - DaysBeforeYear(y), 1);
    MonthStep(y, m);
    Date(y, m, n - DaysBeforeYear(y) - DaysBeforeMonth(y, m))
  }

  /** Distinct dates have distinct ordinals. */
  lemma OrdinalInjective(a: Date, b: Date)
    requires WellFormed(a) && WellFormed(b) && ToOrdinal(a) == ToOrdinal(b)
    ensures a == b
  {
    if a.year < b.year {
      YearsOrdered(a.year, b.year);
    } else if b.year < a.year {
      YearsOrdered(b.year, a.year);
    }
    assert a.year == b.year;
    if a.month < b.month {
      MonthsOrdered(a.year, a.month, b.month);
    } else if b.month < a.month {
      MonthsOrdered(a.year, b.month, a.month);
    }
  }

  /** A later ordinal never lies in an earlier year. */
  lemma OrdinalOrdersYears(a: Date, b: Date)
    requires WellFormed(a) && WellFormed(b) && ToOrdinal(a) <= ToOrdinal(b)
    ensures a.year <= b.year
  {
    if b.year < a.year {
      YearsOrdered(b.year, a.year);
    }
  }

  /** The round trip from date to ordinal and back. */
  lemma FromToOrdinal(d: Date)
    requires WellFormed(d)
    ensures FromOrdinal(ToOrdinal(d)) == d
  {
    OrdinalInjective(FromOrdinal(ToOrdinal(d)), d);
  }

  /** The date `n` days after `d` on the proleptic calendar, with no upper bound on the
      year; defined while the result stays on or after 0001-01-01. */
  function AddDays(d: Date, n: int): (r: Date)
    requires WellFormed(d) && ToOrdinal(d) + n >= 1
    ensures WellFormed(r) && ToOrdinal(r) == ToOrdinal(d) + n
  {
    FromOrdinal(ToOrdinal(d) + n)
  }

  /** `today - timedelta(days=n)`: no value where Python raises `OverflowError`
      because the result would fall before 0001-01-01. */
  function SubtractDays(today: Date, n: nat): (r: Option<Date>)
    requires InRange(today)
    ensures r.Some? <==> n < ToOrdinal(today)
    ensures r.Some? ==> InRange(r.value) && ToOrdinal(r.value) + n == ToOrdinal(today)
  {
    if n < ToOrdinal(today) then
      var d := FromOrdinal(ToOrdinal(today) - n);
      OrdinalOrdersYears(d, today);
      Some(d)
    else None
  }

  /** Adding the offset back to the resolved date gives today again. */
  lemma SubtractThenAdd(today: Date, n: nat)
    requires InRange(today) && n < ToOrdinal(today)
    ensures SubtractDays(today, n).Some?
    ensures AddDays(SubtractDays(today, n).value, n) == today
  {
    OrdinalInjective(AddDays(SubtractDays(today, n).value, n), today);
  }

  /** Going back zero days gives today itself. */
  lemma SubtractZero(today: Date)
    requires InRange(today)
    ensures SubtractDays(today, 0) == Some(today)
  {
    FromToOrdinal(today);
  }

  /** Going back `a` days and then `b` more is going back `a + b` days. */
  lemma SubtractTwice(today: Date, a: nat, b: nat)
    requires InRange(today) && a + b < ToOrdinal(today)
    ensures SubtractDays(today, a).Some?
    ensures SubtractDays(SubtractDays(today, a).value, b) == SubtractDays(today, a + b)
  {
    var mid := SubtractDays(today, a).value;
    OrdinalInjective(SubtractDays(mid, b).value, SubtractDays(today, a + b).value);
  }

  /** The day before 1 March of a leap year is 29 February. */
  lemma LeapDayBeforeMarch(y: int)
    requires MIN_YEAR <= y <= MAX_YEAR && IsLeap(y)
    ensures SubtractDays(Date(y, 3, 1), 1) == Some(Date(y, 2, 29))
  {
    var leapDay := Date(y, 2, 29);
    assert DaysBeforeMonth(y, 3) == DaysBeforeMonth(y, 2) + 29;
    assert ToOrdinal(leapDay) + 1 == ToOrdinal(Date(y, 3, 1));
    FromToOrdinal(leapDay);
  }

  /** The day before 1 January is 31 December of the year before. */
  lemma NewYearsDayBack(y: int)
    requires MIN_YEAR < y <= MAX_YEAR
    ensures SubtractDays(Date(y, 1, 1), 1) == Some(Date(y - 1, 12, 31))
  {
    var eve := Date(y - 1, 12, 31);
    assert DaysBeforeMonth(y - 1, 12) + 31 == DaysInYear(y - 1);
    assert ToOrdinal(eve) + 1 == ToOrdinal(Date(y, 1, 1));
    FromToOrdinal(eve);
  }
}
