/** Calendar dates at day granularity, as the birthday helpers use them
    through dayjs: the proleptic Gregorian calendar, a day number counting days
    from 1 January 1970, the calendar order dayjs's `isBefore(…, "day")`
    compares by, and dayjs's clamping `add(n, "year")`. */
module Calendar {

  /** A calendar date; `month` runs from 1 (January) to 12. */
  datatype Date = Date(year: int, month: int, day: int)

  predicate IsLeapYear(y: int) {
    y % 4 == 0 && (y % 100 != 0 || y % 400 == 0)
  }

  function YearLength(y: int): int {
    if IsLeapYear(y) then 366 else 365
  }

  function DaysInMonth(y: int, m: int): (n: int)
    requires 1 <= m <= 12
    ensures 28 <= n <= 31
    ensures n == 29 <==> m == 2 && IsLeapYear(y)
  {
    if m == 2 then (if IsLeapYear(y) then 29 else 28)
    else if m == 4 || m == 6 || m == 9 || m == 11 then 30
    else 31
  }

  /** A date that exists: a real month, and a day within that month. */
  predicate Valid(d: Date) {
    1 <= d.month <= 12 && 1 <= d.day <= DaysInMonth(d.year, d.month)
  }

  /** Days from 1 January of year 1 to 1 January of year `y`. */
  function DaysBeforeYear(y: int): int {
    var p := y - 1;
    365 * p + p / 4 - p / 100 + p / 400
  }

  /** Days from 1 January to the first day of month `m` of year `y`. */
  function DaysBeforeMonth(y: int, m: int): int
    requires 1 <= m <= 12
  {
    var cumulative := [0, 31, 59, 90, 120, 151, 181, 212, 243, 273, 304, 334];
    cumulative[m - 1] + (if m > 2 && IsLeapYear(y) then 1 else 0)
  }

  /** 1 January 1970 counted from 1 January of year 1. */
  const UnixEpoch: int := 719162

  /** The number of days from 1 January 1970 to `d` (negative before it). */
  function DayNumber(d: Date): int
    requires Valid(d)
  {
    DaysBeforeYear(d.year) + DaysBeforeMonth(d.year, d.month) + d.day - 1 - UnixEpoch
  }

  /** Calendar order at day granularity: `a` falls on an earlier day than `b`. */
  predicate Before(a: Date, b: Date) {
    a.year < b.year
    || (a.year == b.year && (a.month < b.month || (a.month == b.month && a.day < b.day)))
  }

  /** The day after `d`. */
  function NextDay(d: Date): (r: Date)
    requires Valid(d)
    ensures Valid(r) && Before(d, r)
  {
    if d.day < DaysInMonth(d.year, d.month) then Date(d.year, d.month, d.day + 1)
    else if d.month < 12 then Date(d.year, d.month + 1, 1)
    else Date(d.year + 1, 1, 1)
  }

  /** dayjs's `add(n, "year")`: the same month and day `n` years on, the day
      clamped to the length of that month, so 29 February lands on
      28 February of a common year. */
  function AddYears(d: Date, n: int): (r: Date)
    requires Valid(d)
    ensures Valid(r) && r.year == d.year + n && r.month == d.month
    ensures r.day == d.day || (d.month == 2 && d.day == 29 && r.day == 28 && !IsLeapYear(r.year))
  {
    var y := d.year + n;
    Date(y, d.month, if d.day <= DaysInMonth(y, d.month) then d.day else DaysInMonth(y, d.month))
  }

  /** A year's first day follows the previous year's last day. */
  lemma YearStep(y: int)
    ensures DaysBeforeYear(y + 1) == DaysBeforeYear(y) + YearLength(y)
  {
    var p := y - 1;
    FloorStep(p, 4);
    FloorStep(p, 100);
    FloorStep(p, 400);
    assert y % 4 == 0 <==> (p + 1) % 4 == 0;
  }

  /** Floor division by `k` goes up by one exactly where a multiple of `k` is reached. */
  lemma FloorStep(p: int, k: int)
    requires k > 0
    ensures (p + 1) / k == p / k + (if (p + 1) % k == 0 then 1 else 0)
  {
    var q, r := p / k, p % k;
    if r == k - 1 {
      DivUnique(p + 1, k, q + 1);
    } else {
      DivUnique(p + 1, k, q);
    }
  }

  /** The quotient of `a` by `k` is the only multiplier that leaves a remainder in range. */
  lemma DivUnique(a: int, k: int, q: int)
    requires k > 0 && k * q <= a < k * q + k
    ensures a / k == q && a % k == a - k * q
  {
    var q', r' := a / k, a % k;
    if q' < q {
      MulStep(k, q', q);
    } else if q' > q {
      MulStep(k, q, q');
    }
  }

  /** A larger multiplier gives a product larger by at least `k`. */
  lemma {:induction false} MulStep(k: int, m: int, n: int)
    requires k > 0 && m < n
    ensures k * m + k <= k * n
    decreases n - m
  {
    assert k * (n - 1) + k == k * n;
    if m < n - 1 {
      MulStep(k, m, n - 1);
    }
  }

  /** Later years start later: year `y1` is over by the time `y2` starts. */
  lemma {:induction false} YearsAscend(y1: int, y2: int)
    requires y1 < y2
    ensures DaysBeforeYear(y1) + YearLength(y1) <= DaysBeforeYear(y2)
    decreases y2 - y1
  {
    YearStep(y1);
    assert YearLength(y1 + 1) > 0;
    if y1 + 1 < y2 {
      YearsAscend(y1 + 1, y2);
    }
  }

  /** A month's days are followed by the next month's, and the last month ends
      the year. */
  lemma MonthStep(y: int, m: int)
    requires 1 <= m <= 12
    ensures m < 12 ==> DaysBeforeMonth(y, m + 1) == DaysBeforeMonth(y, m) + DaysInMonth(y, m)
    ensures m == 12 ==> DaysBeforeMonth(y, m) + DaysInMonth(y, m) == YearLength(y)
  {
  }

  /** Later months of a year start after earlier ones are over. */
  lemma MonthsAscend(y: int, m1: int, m2: int)
    requires 1 <= m1 < m2 <= 12
    ensures DaysBeforeMonth(y, m1) + DaysInMonth(y, m1) <= DaysBeforeMonth(y, m2)
  {
  }

  /** The day of the year of a valid date lies within the year. */
  lemma DayOfYearBounds(d: Date)
    requires Valid(d)
    ensures 0 <= DaysBeforeMonth(d.year, d.month) + d.day - 1 < YearLength(d.year)
  {
    if d.month < 12 {
      MonthsAscend(d.year, d.month, 12);
    }
    MonthStep(d.year, 12);
  }

  /** Day numbers follow the calendar: one date has a smaller day number than
      another exactly when it falls on an earlier day, and two dates share a
      day number only when they are the same date. */
  lemma DayNumberOrder(a: Date, b: Date)
    requires Valid(a) && Valid(b)
    ensures DayNumber(a) < DayNumber(b) <==> Before(a, b)
    ensures DayNumber(a) == DayNumber(b) <==> a == b
  {
    if a.year != b.year {
      var (x, y) := if a.year < b.year then (a, b) else (b, a);
      DayOfYearBounds(x);
      DayOfYearBounds(y);
      YearsAscend(x.year, y.year);
    } else if a.month != b.month {
      var (x, y) := if a.month < b.month then (a, b) else (b, a);
      MonthsAscend(a.year, x.month, y.month);
    }
  }

  /** Consecutive days have consecutive day numbers, across month and year ends. */
  lemma NextDayNumber(d: Date)
    requires Valid(d)
    ensures DayNumber(NextDay(d)) == DayNumber(d) + 1
  {
    MonthStep(d.year, d.month);
    YearStep(d.year);
  }

  /** Moving a date one year on adds the length of the year crossed, less the
      day a clamped 29 February loses. */
  lemma AddYearDays(d: Date)
    requires Valid(d)
    ensures DayNumber(AddYears(d, 1)) - DayNumber(d) ==
      (if d.month <= 2 then YearLength(d.year) else YearLength(d.year + 1))
      - (if AddYears(d, 1).day != d.day then 1 else 0)
  {
    var r, y, m := AddYears(d, 1), d.year, d.month;
    YearStep(y);
    assert DaysBeforeYear(y + 1) - DaysBeforeYear(y) == YearLength(y);
    assert DaysBeforeMonth(y + 1, m) - DaysBeforeMonth(y, m) ==
      (if m > 2 then YearLength(y + 1) - YearLength(y) else 0);
    assert r.day - d.day == (if r.day != d.day then -1 else 0);
  }
}
