/** The proleptic Gregorian calendar of Python's `datetime`, with a naive
    date-time counted in whole seconds since 0001-01-01 00:00:00.  The
    representable range is that of `datetime`: years 1 through 9999.  Days
    before a year and before a month follow the closed forms `datetime` uses;
    the way back from a day count walks years and months one at a time, so
    that the two directions are independent definitions tied by lemmas. */
module Calendar {
  import opened Wrappers

  const SecondsPerDay := 86400
  const MaxYear := 9999

  predicate IsLeap(y: int) {
    y % 4 == 0 && (y % 100 != 0 || y % 400 == 0)
  }

  function DaysInYear(y: int): int {
    if IsLeap(y) then 366 else 365
  }

  function DaysInMonth(y: int, m: int): int
    requires 1 <= m <= 12
  {
    if m == 2 then (if IsLeap(y) then 29 else 28)
    else if m == 4 || m == 6 || m == 9 || m == 11 then 30
    else 31
  }

  /** Days in the months of year `y` before month `m`. */
  function DaysBeforeMonth(y: int, m: int): int
    requires 1 <= m <= 12
  {
    [0, 31, 59, 90, 120, 151, 181, 212, 243, 273, 304, 334][m - 1]
      + (if m > 2 && IsLeap(y) then 1 else 0)
  }

  /** Days from 0001-01-01 to the first day of year `y`. */
  function DaysBeforeYear(y: int): int
    requires y >= 1
  {
    var k := y - 1;
    k * 365 + k / 4 - k / 100 + k / 400
  }

  /** Days from 0001-01-01 to 10000-01-01: the first day `datetime` cannot hold. */
  const MaxDays := DaysBeforeYear(MaxYear + 1)
  const MaxSeconds := MaxDays * SecondsPerDay

  /** A second-resolution instant that `datetime` can represent. */
  predicate InRange(t: int) {
    0 <= t < MaxSeconds
  }

  datatype DateTime = DateTime(year: int, month: int, day: int, hour: int, minute: int, second: int)

  /** The field ranges `datetime` enforces on construction. */
  predicate Valid(dt: DateTime) {
    && 1 <= dt.year <= MaxYear
    && 1 <= dt.month <= 12
    && 1 <= dt.day <= DaysInMonth(dt.year, dt.month)
    && 0 <= dt.hour < 24
    && 0 <= dt.minute < 60
    && 0 <= dt.second < 60
  }

  // ---------------------------------------------------------------------
  // Facts about the closed forms

  /** Counting one more year adds one more multiple of `n` exactly when the
      new count is a multiple of `n`. */
  lemma DivStep(k: int, n: int)
    requires k >= 0 && n > 0
    ensures (k + 1) / n == k / n + (if (k + 1) % n == 0 then 1 else 0)
  {
    var q, r := k / n, k % n;
    assert k == q * n + r && 0 <= r < n;
    if r == n - 1 {
      assert k + 1 == (q + 1) * n + 0;
      DivUnique(k + 1, n, q + 1, 0);
    } else {
      assert k + 1 == q * n + (r + 1);
      DivUnique(k + 1, n, q, r + 1);
    }
  }

  /** Quotient and remainder are the only ones with the remainder in range. */
  lemma DivUnique(x: int, n: int, q: int, r: int)
    requires n > 0 && 0 <= r < n && x == q * n + r
    ensures x / n == q && x % n == r
  {
    var q', r' := x / n, x % n;
    assert x == q' * n + r' && 0 <= r' < n;
    if q > q' {
      assert (q - q') * n == q * n - q' * n;
      MulAtLeast(q - q', n);
    } else if q < q' {
      assert (q' - q) * n == q' * n - q * n;
      MulAtLeast(q' - q, n);
    }
  }

  lemma MulAtLeast(a: int, n: int)
    requires a >= 1 && n > 0
    ensures a * n >= n
  {
    assert a * n == (a - 1) * n + n;
    assert (a - 1) * n >= 0;
  }

  lemma DaysBeforeYearStep(y: int)
    requires y >= 1
    ensures DaysBeforeYear(y + 1) == DaysBeforeYear(y) + DaysInYear(y)
  {
    var k := y - 1;
    DivStep(k, 4);
    DivStep(k, 100);
    DivStep(k, 400);
    assert y * 365 == k * 365 + 365;
  }

  /** A later year starts at least a whole year after an earlier one. */
  lemma {:induction false} DaysBeforeYearMonotone(a: int, b: int)
    requires 1 <= a < b
    ensures DaysBeforeYear(a) + DaysInYear(a) <= DaysBeforeYear(b)
    decreases b - a
  {
    DaysBeforeYearStep(a);
    if a + 1 < b {
      DaysBeforeYearMonotone(a + 1, b);
    }
  }

  lemma DaysBeforeMonthStep(y: int, m: int)
    requires 1 <= m < 12
    ensures DaysBeforeMonth(y, m + 1) == DaysBeforeMonth(y, m) + DaysInMonth(y, m)
  {
  }

  lemma DaysInYearIsMonths(y: int)
    ensures DaysBeforeMonth(y, 12) + DaysInMonth(y, 12) == DaysInYear(y)
  {
  }

  lemma {:induction false} DaysBeforeMonthMonotone(y: int, a: int, b: int)
    requires 1 <= a < b <= 12
    ensures DaysBeforeMonth(y, a) + DaysInMonth(y, a) <= DaysBeforeMonth(y, b)
    decreases b - a
  {
    DaysBeforeMonthStep(y, a);
    if a + 1 < b {
      DaysBeforeMonthMonotone(y, a + 1, b);
    }
  }

  /** Day `d` of month `m` is one of the days of year `y`. */
  lemma DayOfYearBound(y: int, m: int, d: int)
    requires 1 <= m <= 12 && 1 <= d <= DaysInMonth(y, m)
    ensures 0 <= DaysBeforeMonth(y, m) + d - 1 < DaysInYear(y)
  {
    DaysInYearIsMonths(y);
    if m < 12 {
      DaysBeforeMonthMonotone(y, m, 12);
    }
  }

  /** A day number splits into a year and a day of that year in one way only. */
  lemma YearSplitUnique(y1: int, d1: int, y2: int, d2: int)
    requires y1 >= 1 && y2 >= 1
    requires 0 <= d1 < DaysInYear(y1) && 0 <= d2 < DaysInYear(y2)
    requires DaysBeforeYear(y1) + d1 == DaysBeforeYear(y2) + d2
    ensures y1 == y2 && d1 == d2
  {
    if y1 < y2 {
      DaysBeforeYearMonotone(y1, y2);
    } else if y2 < y1 {
      DaysBeforeYearMonotone(y2, y1);
    }
  }

  /** A day of the year splits into a month and a day of that month in one way only. */
  lemma MonthSplitUnique(y: int, m1: int, d1: int, m2: int, d2: int)
    requires 1 <= m1 <= 12 && 1 <= m2 <= 12
    requires 1 <= d1 <= DaysInMonth(y, m1) && 1 <= d2 <= DaysInMonth(y, m2)
    requires DaysBeforeMonth(y, m1) + d1 == DaysBeforeMonth(y, m2) + d2
    ensures m1 == m2 && d1 == d2
  {
    if m1 < m2 {
      DaysBeforeMonthMonotone(y, m1, m2);
    } else if m2 < m1 {
      DaysBeforeMonthMonotone(y, m2, m1);
    }
  }

  // ---------------------------------------------------------------------
  // Date-time to seconds and back

  /** The day number of a valid date: 0 for 0001-01-01, as `toordinal() - 1`. */
  function DayNumber(dt: DateTime): (n: int)
    requires Valid(dt)
    ensures 0 <= n < MaxDays
  {
    DayOfYearBound(dt.year, dt.month, dt.day);
    DaysBeforeYearMonotone(dt.year, MaxYear + 1);
    DaysBeforeYear(dt.year) + DaysBeforeMonth(dt.year, dt.month) + dt.day - 1
  }

  /** Seconds since 0001-01-01 00:00:00; always an instant `datetime` can hold. */
  function ToSeconds(dt: DateTime): (t: int)
    requires Valid(dt)
    ensures InRange(t)
  {
    DayNumber(dt) * SecondsPerDay + dt.hour * 3600 + dt.minute * 60 + dt.second
  }

  /** Midnight of a day is a whole number of days after the epoch. */
  lemma MidnightSeconds(dt: DateTime)
    requires Valid(dt) && dt.hour == 0 && dt.minute == 0 && dt.second == 0
    ensures ToSeconds(dt) == DayNumber(dt) * SecondsPerDay
    ensures ToSeconds(dt) % SecondsPerDay == 0
  {
    DivUnique(ToSeconds(dt), SecondsPerDay, DayNumber(dt), 0);
  }

  /** Any time after midnight on a day is later than that midnight. */
  lemma LaterSameDay(dt: DateTime)
    requires Valid(dt) && (dt.hour, dt.minute, dt.second) != (0, 0, 0)
    ensures Valid(DateTime(dt.year, dt.month, dt.day, 0, 0, 0))
    ensures ToSeconds(DateTime(dt.year, dt.month, dt.day, 0, 0, 0)) < ToSeconds(dt)
  {
    var midnight := DateTime(dt.year, dt.month, dt.day, 0, 0, 0);
    assert DayNumber(midnight) == DayNumber(dt);
  }

  /** The year holding the `n`-th day counted from the first day of year `y`,
      and the day of that year it is. */
  function YearOf(n: nat, y: int): (r: (int, nat))
    requires y >= 1
    ensures r.0 >= y && r.1 < DaysInYear(r.0)
    ensures DaysBeforeYear(r.0) + r.1 == DaysBeforeYear(y) + n
    decreases n
  {
    if n < DaysInYear(y) then (y, n)
    else
      DaysBeforeYearStep(y);
      YearOf(n - DaysInYear(y), y + 1)
  }

  /** The month holding day `doy` (counted from 0) of year `y`, searching from
      month `m`, and the day of that month (counted from 1). */
  function MonthOf(y: int, doy: int, m: int): (r: (int, int))
    requires 1 <= m <= 12
    requires DaysBeforeMonth(y, m) <= doy < DaysInYear(y)
    ensures m <= r.0 <= 12 && 1 <= r.1 <= DaysInMonth(y, r.0)
    ensures DaysBeforeMonth(y, r.0) + r.1 - 1 == doy
    decreases 12 - m
  {
    DaysInYearIsMonths(y);
    if m == 12 || doy < DaysBeforeMonth(y, m + 1) then
      (if m < 12 then DaysBeforeMonthStep(y, m); (m, doy - DaysBeforeMonth(y, m) + 1)
       else (m, doy - DaysBeforeMonth(y, m) + 1))
    else
      MonthOf(y, doy, m + 1)
  }

  /** The day numbers `datetime` can hold all fall in years 1 through 9999. */
  lemma YearOfInRange(days: nat)
    requires days < MaxDays
    ensures YearOf(days, 1).0 <= MaxYear
  {
    var y := YearOf(days, 1).0;
    if y > MaxYear {
      DaysBeforeYearMonotone(MaxYear + 1, y);
    }
  }

  /** A second of the day splits into hour, minute and second. */
  lemma SecondOfDay(sod: int)
    requires 0 <= sod < SecondsPerDay
    ensures sod / 3600 < 24 && sod % 3600 / 60 < 60
    ensures (sod / 3600) * 3600 + (sod % 3600 / 60) * 60 + sod % 60 == sod
  {
  }

  /** The valid date-time `t` seconds after 0001-01-01 00:00:00. */
  function FromSeconds(t: int): (dt: DateTime)
    requires InRange(t)
    ensures Valid(dt) && ToSeconds(dt) == t
  {
    var days := t / SecondsPerDay;
    var sod := t % SecondsPerDay;
    YearOfInRange(days);
    SecondOfDay(sod);
    var (y, doy) := YearOf(days, 1);
    var (m, d) := MonthOf(y, doy, 1);
    DateTime(y, m, d, sod / 3600, sod % 3600 / 60, sod % 60)
  }

  /** `datetime + timedelta`: the shifted instant, or `None` for the
      `OverflowError` raised when it leaves years 1 through 9999. */
  function Shift(t: int, delta: int): (r: Option<int>)
    ensures r.Some? <==> InRange(t + delta)
    ensures r.Some? ==> r.value == t + delta && InRange(r.value)
  {
    if InRange(t + delta) then Some(t + delta) else None
  }

  /** Shifting by `delta` and then by `-delta` gives back the original instant. */
  lemma ShiftUndo(t: int, delta: int)
    requires InRange(t) && Shift(t, delta).Some?
    ensures Shift(Shift(t, delta).value, -delta) == Some(t)
  {
  }

  /** Distinct valid date-times are distinct instants. */
  lemma ToSecondsInjective(a: DateTime, b: DateTime)
    requires Valid(a) && Valid(b) && ToSeconds(a) == ToSeconds(b)
    ensures a == b
  {
    var sa := a.hour * 3600 + a.minute * 60 + a.second;
    var sb := b.hour * 3600 + b.minute * 60 + b.second;
    assert DayNumber(a) == DayNumber(b) && sa == sb;
    YearSplitUnique(a.year, DaysBeforeMonth(a.year, a.month) + a.day - 1,
                    b.year, DaysBeforeMonth(b.year, b.month) + b.day - 1);
    MonthSplitUnique(a.year, a.month, a.day, b.month, b.day);
  }

  /** The order `datetime` compares in: field by field, most significant first. */
  predicate Before(a: DateTime, b: DateTime) {
    if a.year != b.year then a.year < b.year
    else if a.month != b.month then a.month < b.month
    else if a.day != b.day then a.day < b.day
    else if a.hour != b.hour then a.hour < b.hour
    else if a.minute != b.minute then a.minute < b.minute
    else a.second < b.second
  }

  /** An earlier calendar day has a smaller day number. */
  lemma DayNumberBefore(a: DateTime, b: DateTime)
    requires Valid(a) && Valid(b)
    requires a.year < b.year || (a.year == b.year && (a.month < b.month || (a.month == b.month && a.day < b.day)))
    ensures DayNumber(a) < DayNumber(b)
  {
    if a.year < b.year {
      DayOfYearBound(a.year, a.month, a.day);
      DayOfYearBound(b.year, b.month, b.day);
      DaysBeforeYearMonotone(a.year, b.year);
    } else if a.month < b.month {
      DaysBeforeMonthMonotone(a.year, a.month, b.month);
    }
  }

  lemma BeforeToSeconds(a: DateTime, b: DateTime)
    requires Valid(a) && Valid(b) && Before(a, b)
    ensures ToSeconds(a) < ToSeconds(b)
  {
    var sa := a.hour * 3600 + a.minute * 60 + a.second;
    var sb := b.hour * 3600 + b.minute * 60 + b.second;
    assert 0 <= sa < SecondsPerDay && 0 <= sb < SecondsPerDay;
    if (a.year, a.month, a.day) != (b.year, b.month, b.day) {
      DayNumberBefore(a, b);
      var gap := DayNumber(b) - DayNumber(a);
      assert DayNumber(b) * SecondsPerDay == DayNumber(a) * SecondsPerDay + gap * SecondsPerDay;
      MulAtLeast(gap, SecondsPerDay);
    } else {
      assert DayNumber(a) == DayNumber(b);
    }
  }

  /** Comparing two valid date-times compares the instants they denote, in
      both directions. */
  lemma {:induction false} ToSecondsMonotone(a: DateTime, b: DateTime)
    requires Valid(a) && Valid(b)
    ensures Before(a, b) <==> ToSeconds(a) < ToSeconds(b)
  {
    if Before(a, b) {
      BeforeToSeconds(a, b);
    } else if a != b {
      assert Before(b, a);
      BeforeToSeconds(b, a);
    }
  }

  /** Rendering a valid date-time as seconds and reading it back is lossless. */
  lemma FromToSeconds(dt: DateTime)
    requires Valid(dt)
    ensures FromSeconds(ToSeconds(dt)) == dt
  {
    ToSecondsInjective(FromSeconds(ToSeconds(dt)), dt);
  }
}
