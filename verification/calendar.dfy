/** Proleptic Gregorian dates as Python's `datetime.date` sees them.  A date
    is represented by its ordinal (`date.toordinal()`, 0001-01-01 is day 1),
    so `d + timedelta(days=k)` is `d + k` and date comparison is `<=` on
    integers. */
module Calendar {

  const MinYear := 1
  const MaxYear := 9999

  /** A date ordinal; every value of this type that the model builds comes
      from `MakeDate` or from adding days to one. */
  type Day = int

  predicate IsLeap(y: int) {
    y % 4 == 0 && (y % 100 != 0 || y % 400 == 0)
  }

  /** `calendar.monthrange(y, m)[1]`. */
  function DaysInMonth(y: int, m: int): (n: int)
    requires 1 <= m <= 12
    ensures 28 <= n <= 31
  {
    if m == 2 then (if IsLeap(y) then 29 else 28)
    else if m == 4 || m == 6 || m == 9 || m == 11 then 30
    else 31
  }

  /** The arguments `date(y, m, d)` accepts without raising `ValueError`. */
  predicate ValidDate(y: int, m: int, d: int) {
    MinYear <= y <= MaxYear && 1 <= m <= 12 && 1 <= d <= DaysInMonth(y, m)
  }

  function DaysBeforeYear(y: int): int
    requires y >= 1
  {
    365 * (y - 1) + (y - 1) / 4 - (y - 1) / 100 + (y - 1) / 400
  }

  function DaysBeforeMonth(y: int, m: int): int
    requires 1 <= m <= 12
  {
    var base :=
      if m == 1 then 0 else if m == 2 then 31 else if m == 3 then 59 else if m == 4 then 90
      else if m == 5 then 120 else if m == 6 then 151 else if m == 7 then 181 else if m == 8 then 212
      else if m == 9 then 243 else if m == 10 then 273 else if m == 11 then 304 else 334;
    if m > 2 && IsLeap(y) then base + 1 else base
  }

  /** `date(y, m, d).toordinal()`. */
  function MakeDate(y: int, m: int, d: int): Day
    requires ValidDate(y, m, d)
  {
    DaysBeforeYear(y) + DaysBeforeMonth(y, m) + d
  }

  /** `date.weekday()`: Monday is 0 and Sunday is 6. */
  function Weekday(day: Day): (w: int)
    ensures 0 <= w < 7
  {
    (day + 6) % 7
  }

  const Sunday := 6

  /** Within a month, consecutive day numbers are consecutive dates, and the
      first of a month follows the last day of the previous month. */
  lemma MonthsAreContiguous(y: int, m: int)
    requires MinYear <= y <= MaxYear && 1 <= m <= 12
    requires m == 12 ==> y < MaxYear
    ensures forall d :: 1 <= d <= DaysInMonth(y, m) ==> MakeDate(y, m, d) == MakeDate(y, m, 1) + d - 1
    ensures m < 12 ==> MakeDate(y, m + 1, 1) == MakeDate(y, m, DaysInMonth(y, m)) + 1
    ensures m == 12 ==> MakeDate(y + 1, 1, 1) == MakeDate(y, 12, 31) + 1
  {
    if m == 12 {
      YearLength(y);
    }
  }

  /** A year has 366 days when it is a leap year and 365 otherwise. */
  lemma YearLength(y: int)
    requires y >= 1
    ensures DaysBeforeYear(y + 1) == DaysBeforeYear(y) + (if IsLeap(y) then 366 else 365)
  {
    QuotientStep(y, 4);
    QuotientStep(y, 100);
    QuotientStep(y, 400);
    DivisorChain(y);
  }

  /** A multiple of 400 is a multiple of 100, and a multiple of 100 one of 4. */
  lemma DivisorChain(y: int)
    ensures y % 400 == 0 ==> y % 100 == 0
    ensures y % 100 == 0 ==> y % 4 == 0
  {
    if y % 400 == 0 {
      DivExact(y, 100, 4 * (y / 400), 0);
    }
    if y % 100 == 0 {
      DivExact(y, 4, 25 * (y / 100), 0);
    }
  }

  lemma QuotientStep(y: int, n: int)
    requires y >= 1 && n > 0
    ensures y / n == (y - 1) / n + (if y % n == 0 then 1 else 0)
  {
    var q, r := (y - 1) / n, (y - 1) % n;
    assert y - 1 == n * q + r;
    if r == n - 1 {
      assert y == n * (q + 1);
      DivExact(y, n, q + 1, 0);
    } else {
      assert y == n * q + (r + 1);
      DivExact(y, n, q, r + 1);
    }
  }

  /** Division with a known quotient and remainder. */
  lemma DivExact(x: int, n: int, q: int, r: int)
    requires n > 0 && 0 <= r < n && x == n * q + r
    ensures x / n == q && x % n == r
  {
    var q', r' := x / n, x % n;
    assert x == n * q' + r';
    if q' > q {
      assert n * q' >= n * (q + 1) by { MulMonotone(n, q + 1, q'); }
    } else if q' < q {
      assert n * q >= n * (q' + 1) by { MulMonotone(n, q' + 1, q); }
    }
  }

  lemma MulMonotone(n: int, a: int, b: int)
    requires n > 0 && a <= b
    ensures n * a <= n * b
  {
    assert n * b - n * a == n * (b - a);
  }

  /** The first and last day of year `y`; a date `day` lies in year `y`
      exactly when it is between them. */
  predicate InYear(day: Day, y: int)
    requires MinYear <= y <= MaxYear
  {
    MakeDate(y, 1, 1) <= day <= MakeDate(y, 12, 31)
  }

  /** The dates of a year run from 1 January to 31 December in calendar order. */
  lemma DateInYear(y: int, m: int, d: int)
    requires ValidDate(y, m, d)
    ensures InYear(MakeDate(y, m, d), y)
  {
  }

  /** A local wall-clock time, as `datetime.now()` returns it (seconds only). */
  datatype DateTime = DateTime(year: int, month: int, day: int, hour: int, minute: int, second: int)

  predicate ValidDateTime(t: DateTime) {
    ValidDate(t.year, t.month, t.day) && 0 <= t.hour < 24 && 0 <= t.minute < 60 && 0 <= t.second < 60
  }

  /** Seconds since the start of the proleptic calendar, on the local clock. */
  function LocalSeconds(t: DateTime): int
    requires ValidDateTime(t)
  {
    MakeDate(t.year, t.month, t.day) * 86400 + t.hour * 3600 + t.minute * 60 + t.second
  }

  /** A (year, month) pair, 1 <= month <= 12 when valid. */
  datatype YearMonth = YearMonth(year: int, month: int)

  predicate ValidMonth(ym: YearMonth) {
    1 <= ym.month <= 12
  }

  /** Months counted from year 0: consecutive months differ by one. */
  function MonthIndex(ym: YearMonth): int {
    ym.year * 12 + ym.month
  }
}
