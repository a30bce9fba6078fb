/** Proleptic Gregorian calendar arithmetic in one fixed time zone (UTC).
    Dates are numbered by whole days from 0001-01-01, which was a Monday, so the
    weekday of a date is its day number modulo 7 counted from Monday. Calendar
    months are numbered by a single "month index" 12 * year + (month - 1), which
    turns the December-to-January roll-over into plain successor. */
module Civil {
  import Numeric

  /** Every fourth year is a leap year, except centuries that 400 does not divide. */
  predicate IsLeapYear(y: int) {
    y % 4 == 0 && (y % 100 != 0 || y % 400 == 0)
  }

  function YearLength(y: int): int {
    if IsLeapYear(y) then 366 else 365
  }

  /** The number of days of month m (1..12) of year y. */
  function DaysInMonth(y: int, m: int): (n: int)
    requires 1 <= m <= 12
    ensures 28 <= n <= 31
    ensures m == 2 ==> (n == 29 <==> IsLeapYear(y))
  {
    if m == 2 then (if IsLeapYear(y) then 29 else 28)
    else if m == 4 || m == 6 || m == 9 || m == 11 then 30
    else 31
  }

  /** Days from 0001-01-01 to January 1st of year y. Dafny's division by a positive
      constant floors, which is what the proleptic count needs for years before 1. */
  function DaysBeforeYear(y: int): int {
    var p := y - 1;
    365 * p + p / 4 - p / 100 + p / 400
  }

  /** Days from January 1st to the 1st of month m in year y. */
  function DaysBeforeMonth(y: int, m: int): int
    requires 1 <= m <= 12
  {
    var table := [0, 31, 59, 90, 120, 151, 181, 212, 243, 273, 304, 334];
    table[m - 1] + (if m > 2 && IsLeapYear(y) then 1 else 0)
  }

  datatype Date = Date(year: int, month: int, day: int)

  predicate ValidDate(d: Date) {
    1 <= d.month <= 12 && 1 <= d.day <= DaysInMonth(d.year, d.month)
  }

  /** Day number of a date: 0 for 0001-01-01, one more for every following day. */
  function DayNumber(d: Date): int
    requires 1 <= d.month <= 12
  {
    DaysBeforeYear(d.year) + DaysBeforeMonth(d.year, d.month) + d.day - 1
  }

  /** Weekday counted from Monday (Monday = 0 ... Sunday = 6). */
  function Weekday(d: Date): (w: int)
    requires 1 <= d.month <= 12
    ensures 0 <= w < 7
  {
    DayNumber(d) % 7
  }

  /** The date one day later (what adding one day to a date does). */
  function NextDay(d: Date): (r: Date)
    requires ValidDate(d)
    ensures ValidDate(r) && DayNumber(r) == DayNumber(d) + 1
  {
    NextDayStep(d);
    if d.day < DaysInMonth(d.year, d.month) then d.(day := d.day + 1)
    else if d.month < 12 then Date(d.year, d.month + 1, 1)
    else Date(d.year + 1, 1, 1)
  }

  // ---------------------------------------------------------------------------
  // Month indices

  function MonthIndex(y: int, m: int): int {
    12 * y + m - 1
  }

  function YearOf(k: int): int {
    k / 12
  }

  function MonthOf(k: int): (m: int)
    ensures 1 <= m <= 12
  {
    k % 12 + 1
  }

  lemma MonthIndexRoundTrip(y: int, m: int)
    requires 1 <= m <= 12
    ensures YearOf(MonthIndex(y, m)) == y && MonthOf(MonthIndex(y, m)) == m
  {
  }

  lemma IndexMonthRoundTrip(k: int)
    ensures MonthIndex(YearOf(k), MonthOf(k)) == k
  {
  }

  /** Day number of the 1st of the month with index k. */
  function MonthStart(k: int): int {
    DayNumber(Date(YearOf(k), MonthOf(k), 1))
  }

  function MonthLength(k: int): int {
    DaysInMonth(YearOf(k), MonthOf(k))
  }

  // ---------------------------------------------------------------------------
  // Instants

  /** An instant in the fixed zone, with millisecond resolution. */
  datatype DateTime = DateTime(date: Date, hour: int, minute: int, second: int, milli: int)

  predicate ValidDateTime(t: DateTime) {
    ValidDate(t.date) && 0 <= t.hour < 24 && 0 <= t.minute < 60 && 0 <= t.second < 60
    && 0 <= t.milli < 1000
  }

  /** Milliseconds since 0001-01-01T00:00:00.000; instants compare through it. */
  function ToMillis(t: DateTime): int
    requires 1 <= t.date.month <= 12
  {
    (((DayNumber(t.date) * 24 + t.hour) * 60 + t.minute) * 60 + t.second) * 1000 + t.milli
  }

  const MillisPerDay: int := 86_400_000

  /** Midnight at the start of the 1st of month m of year y. */
  function FirstOfMonth(y: int, m: int): DateTime {
    DateTime(Date(y, m, 1), 0, 0, 0, 0)
  }

  /** The same instant moved to the 1st of its month, time of day kept. */
  function WithFirstDay(t: DateTime): DateTime {
    t.(date := t.date.(day := 1))
  }

  function MonthIndexOf(t: DateTime): int {
    MonthIndex(t.date.year, t.date.month)
  }

  // ---------------------------------------------------------------------------
  // Lemmas

  lemma YearStep(y: int)
    ensures DaysBeforeYear(y + 1) == DaysBeforeYear(y) + YearLength(y)
  {
    DivStep(y, 4);
    DivStep(y, 100);
    DivStep(y, 400);
  }

  /** Stepping back from y to y - 1 lowers y / n by one exactly when n divides y. */
  lemma DivStep(y: int, n: int)
    requires n > 0
    ensures y / n - (y - 1) / n == (if y % n == 0 then 1 else 0)
  {
    var q, r := y / n, y % n;
    assert y == n * q + r && 0 <= r < n;
    if r == 0 {
      assert y - 1 == n * (q - 1) + (n - 1);
      Numeric.DivUnique(y - 1, n, q - 1, n - 1);
    } else {
      assert y - 1 == n * q + (r - 1);
      Numeric.DivUnique(y - 1, n, q, r - 1);
    }
  }

  lemma NextDayStep(d: Date)
    requires ValidDate(d)
    ensures d.day == DaysInMonth(d.year, d.month) && d.month == 12 ==>
              DayNumber(Date(d.year + 1, 1, 1)) == DayNumber(d) + 1
  {
    YearStep(d.year);
  }

  /** The 1st of the next month comes exactly one month length later. */
  lemma {:induction false} MonthStartStep(k: int)
    ensures MonthStart(k + 1) == MonthStart(k) + MonthLength(k)
  {
    if MonthOf(k) == 12 {
      assert YearOf(k + 1) == YearOf(k) + 1 && MonthOf(k + 1) == 1;
      YearStep(YearOf(k));
    } else {
      assert YearOf(k + 1) == YearOf(k) && MonthOf(k + 1) == MonthOf(k) + 1;
    }
  }

  /** Months occupy consecutive, non-overlapping runs of day numbers. */
  lemma {:induction false} MonthStartMonotone(j: int, k: int)
    requires j < k
    ensures MonthStart(j) + MonthLength(j) <= MonthStart(k)
    decreases k - j
  {
    MonthStartStep(j);
    if j + 1 < k {
      MonthStartMonotone(j + 1, k);
    }
  }

  /** A valid date lies inside its own month's run of day numbers. */
  lemma DateInMonth(d: Date)
    requires ValidDate(d)
    ensures var k := MonthIndex(d.year, d.month);
            MonthStart(k) <= DayNumber(d) < MonthStart(k) + MonthLength(k)
  {
    MonthIndexRoundTrip(d.year, d.month);
  }

  /** A date is on or after the 1st of month k exactly when its own month is k or later. */
  lemma DateVersusMonthStart(d: Date, k: int)
    requires ValidDate(d)
    ensures DayNumber(d) >= MonthStart(k) <==> MonthIndex(d.year, d.month) >= k
  {
    var j := MonthIndex(d.year, d.month);
    DateInMonth(d);
    if j > k {
      MonthStartMonotone(k, j);
    } else if j < k {
      MonthStartMonotone(j, k);
    }
  }

  /** A date is on or before the last day of month k exactly when its own month is k or earlier. */
  lemma DateVersusMonthEnd(d: Date, k: int)
    requires ValidDate(d)
    ensures DayNumber(d) < MonthStart(k) + MonthLength(k) <==> MonthIndex(d.year, d.month) <= k
  {
    DateVersusMonthStart(d, k + 1);
    MonthStartStep(k);
  }

  /** Instants against the midnight that starts a month: only the (year, month) fields matter. */
  lemma {:induction false} InstantVersusMonthStart(t: DateTime, y: int, m: int)
    requires ValidDateTime(t) && 1 <= m <= 12
    ensures ToMillis(t) >= ToMillis(FirstOfMonth(y, m)) <==> MonthIndexOf(t) >= MonthIndex(y, m)
  {
    MonthIndexRoundTrip(y, m);
    var k := MonthIndex(y, m);
    assert DayNumber(Date(y, m, 1)) == MonthStart(k);
    DateVersusMonthStart(t.date, k);
    var dn := DayNumber(t.date);
    assert ToMillis(t) == dn * MillisPerDay + (((t.hour * 60 + t.minute) * 60 + t.second) * 1000 + t.milli);
    assert 0 <= ((t.hour * 60 + t.minute) * 60 + t.second) * 1000 + t.milli < MillisPerDay;
  }

  /** Comparing two instants moved to the 1st of their months compares their months,
      as long as the earlier one sits at midnight. */
  lemma {:induction false} MonthStartVersusFirstDay(y: int, m: int, t: DateTime)
    requires ValidDateTime(t) && 1 <= m <= 12
    ensures ToMillis(FirstOfMonth(y, m)) <= ToMillis(WithFirstDay(t)) <==> MonthIndex(y, m) <= MonthIndexOf(t)
  {
    var u := WithFirstDay(t);
    assert ValidDateTime(u);
    InstantVersusMonthStart(u, y, m);
  }

  /** Dates in calendar order: by year, then month, then day. */
  predicate DateBefore(a: Date, b: Date) {
    a.year < b.year || (a.year == b.year && (a.month < b.month || (a.month == b.month && a.day < b.day)))
  }

  /** Day numbers order valid dates as the calendar does, and tell distinct dates apart. */
  lemma DayNumberOrder(a: Date, b: Date)
    requires ValidDate(a) && ValidDate(b)
    ensures DayNumber(a) < DayNumber(b) <==> DateBefore(a, b)
    ensures DayNumber(a) == DayNumber(b) <==> a == b
  {
    DayNumberBefore(a, b);
    DayNumberSame(a, b);
  }

  lemma DayNumberBefore(a: Date, b: Date)
    requires ValidDate(a) && ValidDate(b)
    ensures DayNumber(a) < DayNumber(b) <==> DateBefore(a, b)
  {
    var j, k := MonthIndex(a.year, a.month), MonthIndex(b.year, b.month);
    DateInMonth(a);
    DateInMonth(b);
    if j < k {
      MonthStartMonotone(j, k);
    } else if k < j {
      MonthStartMonotone(k, j);
    } else {
      MonthIndexRoundTrip(a.year, a.month);
      MonthIndexRoundTrip(b.year, b.month);
    }
  }

  lemma DayNumberSame(a: Date, b: Date)
    requires ValidDate(a) && ValidDate(b)
    ensures DayNumber(a) == DayNumber(b) <==> a == b
  {
    DayNumberBefore(a, b);
    DayNumberBefore(b, a);
  }
}
