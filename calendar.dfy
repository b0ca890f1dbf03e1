/**
 * Calendar dates as Python's `datetime.date` has them: the proleptic Gregorian
 * calendar over years 1 to 9999, with day ordinals counted from 0001-01-01
 * (ordinal 1). Subtracting two dates gives the difference of their ordinals.
 */
module Calendar {

  const MinYear := 1
  const MaxYear := 9999

  /** The ordinal of 9999-12-31, the last date `datetime.date` can hold. */
  const MaxOrdinal := 3652059

  datatype Date = Date(year: int, month: int, day: int)

  /** Gregorian leap years: divisible by 4, except centuries not divisible by 400. */
  predicate IsLeap(y: int) {
    y % 4 == 0 && (y % 100 != 0 || y % 400 == 0)
  }

  function DaysInYear(y: int): int {
    if IsLeap(y) then 366 else 365
  }

  function DaysInMonth(y: int, m: int): int
    requires 1 <= m <= 12
  {
    if m == 2 then (if IsLeap(y) then 29 else 28)
    else if m == 4 || m == 6 || m == 9 || m == 11 then 30
    else 31
  }

  /** The dates `datetime.date(year, month, day)` accepts; every other triple raises ValueError. */
  predicate IsValid(d: Date)
    ensures IsValid(d) ==> 1 <= d.day <= 31
    ensures d.month == 2 && d.day == 29 ==> (IsValid(d) <==> MinYear <= d.year <= MaxYear && IsLeap(d.year))
  {
    MinYear <= d.year <= MaxYear && 1 <= d.month <= 12 && 1 <= d.day <= DaysInMonth(d.year, d.month)
  }

  /** Lexicographic order on (year, month, day): `a` is an earlier day than `b`. */
  predicate Before(a: Date, b: Date) {
    a.year < b.year || (a.year == b.year && (a.month < b.month || (a.month == b.month && a.day < b.day)))
  }

  /** Days in the years before `y`, by the closed form `datetime` uses. */
  function DaysBeforeYear(y: int): int {
    var p := y - 1;
    p * 365 + p / 4 - p / 100 + p / 400
  }

  /** Days in year `y` before the first of month `m`. */
  function DaysBeforeMonth(y: int, m: int): int
    requires 1 <= m <= 12
  {
    var common :=
      if m == 1 then 0 else if m == 2 then 31 else if m == 3 then 59
      else if m == 4 then 90 else if m == 5 then 120 else if m == 6 then 151
      else if m == 7 then 181 else if m == 8 then 212 else if m == 9 then 243
      else if m == 10 then 273 else if m == 11 then 304 else 334;
    common + (if m > 2 && IsLeap(y) then 1 else 0)
  }

  /**
   * `date.toordinal()`: 0001-01-01 is day 1. A date's ordinal lies within its
   * year's span of ordinals, and every date `datetime.date` can hold has an
   * ordinal between 1 and `MaxOrdinal`.
   */
  function ToOrdinal(d: Date): (n: int)
    requires IsValid(d)
    ensures DaysBeforeYear(d.year) < n <= DaysBeforeYear(d.year) + DaysInYear(d.year)
    ensures 1 <= n <= MaxOrdinal
  {
    DaysBeforeYearMonotone(1, d.year);
    DaysBeforeYearStep(d.year);
    DaysBeforeYearMonotone(d.year + 1, MaxYear + 1);
    assert DaysBeforeYear(MaxYear + 1) == MaxOrdinal;
    DaysBeforeYear(d.year) + DaysBeforeMonth(d.year, d.month) + d.day
  }

  /**
   * `(today - d).days`: how many days `d` lies before `today`. It is zero
   * exactly for today's date, positive exactly for an earlier date, and
   * negative for a later one.
   */
  function AgeDays(today: Date, d: Date): (age: int)
    requires IsValid(today) && IsValid(d)
    ensures age == 0 <==> d == today
    ensures age > 0 <==> Before(d, today)
  {
    OrdinalOrder(d, today);
    ToOrdinal(today) - ToOrdinal(d)
  }

  /** The day after `d`. */
  function NextDay(d: Date): (n: Date)
    requires IsValid(d) && d != Date(MaxYear, 12, 31)
    ensures IsValid(n) && Before(d, n)
  {
    if d.day < DaysInMonth(d.year, d.month) then Date(d.year, d.month, d.day + 1)
    else if d.month < 12 then Date(d.year, d.month + 1, 1)
    else Date(d.year + 1, 1, 1)
  }

  /** Each year contributes exactly its own length to the closed form. */
  lemma DaysBeforeYearStep(y: int)
    requires y >= 1
    ensures DaysBeforeYear(y + 1) == DaysBeforeYear(y) + DaysInYear(y)
  {
    DivisionStep4(y);
    DivisionStep100(y);
    DivisionStep400(y);
    CenturyDivisibility(y);
  }

  /** Going from `y - 1` to `y`, the count of multiples of 4 grows exactly when 4 divides `y`. */
  lemma DivisionStep4(y: int)
    ensures y / 4 - (y - 1) / 4 == if y % 4 == 0 then 1 else 0
  {
    var q, r := (y - 1) / 4, (y - 1) % 4;
    assert y - 1 == 4 * q + r && 0 <= r < 4;
    if r == 3 {
      assert y == 4 * (q + 1) + 0;
      assert y / 4 == q + 1 && y % 4 == 0;
    } else {
      assert y == 4 * q + (r + 1);
      assert y / 4 == q && y % 4 == r + 1;
    }
  }

  /** Going from `y - 1` to `y`, the count of multiples of 100 grows exactly when 100 divides `y`. */
  lemma DivisionStep100(y: int)
    ensures y / 100 - (y - 1) / 100 == if y % 100 == 0 then 1 else 0
  {
    var q, r := (y - 1) / 100, (y - 1) % 100;
    assert y - 1 == 100 * q + r && 0 <= r < 100;
    if r == 99 {
      assert y == 100 * (q + 1) + 0;
      assert y / 100 == q + 1 && y % 100 == 0;
    } else {
      assert y == 100 * q + (r + 1);
      assert y / 100 == q && y % 100 == r + 1;
    }
  }

  /** Going from `y - 1` to `y`, the count of multiples of 400 grows exactly when 400 divides `y`. */
  lemma DivisionStep400(y: int)
    ensures y / 400 - (y - 1) / 400 == if y % 400 == 0 then 1 else 0
  {
    var q, r := (y - 1) / 400, (y - 1) % 400;
    assert y - 1 == 400 * q + r && 0 <= r < 400;
    if r == 399 {
      assert y == 400 * (q + 1) + 0;
      assert y / 400 == q + 1 && y % 400 == 0;
    } else {
      assert y == 400 * q + (r + 1);
      assert y / 400 == q && y % 400 == r + 1;
    }
  }

  /** Every century year is divisible by 4, and every year divisible by 400 is a century year. */
  lemma CenturyDivisibility(y: int)
    ensures y % 100 == 0 ==> y % 4 == 0
    ensures y % 400 == 0 ==> y % 100 == 0
  {
    if y % 100 == 0 {
      var k := y / 100;
      assert y == 4 * (25 * k) + 0;
    }
    if y % 400 == 0 {
      var k := y / 400;
      assert y == 100 * (4 * k) + 0;
    }
  }

  /** The closed form grows with the year. */
  lemma {:induction false} DaysBeforeYearMonotone(a: int, b: int)
    requires 1 <= a <= b
    ensures DaysBeforeYear(a) <= DaysBeforeYear(b)
    decreases b - a
  {
    if a < b {
      DaysBeforeYearStep(a);
      DaysBeforeYearMonotone(a + 1, b);
    }
  }

  /** Each month contributes exactly its own length to the month table. */
  lemma DaysBeforeMonthStep(y: int, m: int)
    requires 1 <= m < 12
    ensures DaysBeforeMonth(y, m + 1) == DaysBeforeMonth(y, m) + DaysInMonth(y, m)
  {
  }

  /** The first date of the calendar has ordinal 1. */
  lemma FirstOrdinal()
    ensures ToOrdinal(Date(MinYear, 1, 1)) == 1
  {
  }

  /**
   * Ordinals count days one by one: the day after `d` has the next ordinal.
   * Together with `FirstOrdinal` this pins `ToOrdinal` down as the day count
   * from 0001-01-01.
   */
  lemma OrdinalNextDay(d: Date)
    requires IsValid(d) && d != Date(MaxYear, 12, 31)
    ensures ToOrdinal(NextDay(d)) == ToOrdinal(d) + 1
  {
    if d.day < DaysInMonth(d.year, d.month) {
    } else if d.month < 12 {
      DaysBeforeMonthStep(d.year, d.month);
    } else {
      DaysBeforeYearStep(d.year);
    }
  }

  /** An earlier date has a smaller ordinal. */
  lemma OrdinalMonotone(a: Date, b: Date)
    requires IsValid(a) && IsValid(b) && Before(a, b)
    ensures ToOrdinal(a) < ToOrdinal(b)
  {
    if a.year < b.year {
      DaysBeforeYearStep(a.year);
      DaysBeforeYearMonotone(a.year + 1, b.year);
    } else if a.month < b.month {
      assert DaysBeforeMonth(a.year, a.month) + DaysInMonth(a.year, a.month) <= DaysBeforeMonth(b.year, b.month);
    }
  }

  /** Comparing ordinals is comparing dates: smaller ordinal exactly when earlier, equal exactly when the same date. */
  lemma OrdinalOrder(a: Date, b: Date)
    requires IsValid(a) && IsValid(b)
    ensures ToOrdinal(a) < ToOrdinal(b) <==> Before(a, b)
    ensures ToOrdinal(a) == ToOrdinal(b) <==> a == b
  {
    if Before(a, b) {
      OrdinalMonotone(a, b);
    } else if Before(b, a) {
      OrdinalMonotone(b, a);
    }
  }
}
