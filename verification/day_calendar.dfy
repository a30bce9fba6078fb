/** The day-by-day calendar of the Python variant (app.py): a table from year to
    month to `MonthData` counters, filled by walking every date from the start date
    to the end date and spending a budget of "completed" days before counting the
    rest as "remaining". Dates compare as the calendar orders them, which is the
    order of their day numbers (`Civil.DayNumberOrder`). */
module DayCalendar {
  import opened Civil
  import opened Numeric
  import opened Wrappers

  /** `MonthData`: the weekday (Monday = 0) of the month's first visited date and the
      month's completed and remaining day counters. */
  datatype MonthData = MonthData(offset: int, completed: int, remaining: int) {
    /** The `days` property. */
    function Days(): int {
      completed + remaining
    }
  }

  /** year -> month -> counters. */
  type Table = map<int, map<int, MonthData>>

  // ---------------------------------------------------------------------------
  // The module-level constants

  /** `start`: 2024-07-16 12:30 (no time zone). */
  function PyStart(): (t: DateTime)
    ensures ValidDateTime(t)
  {
    DateTime(Date(2024, 7, 16), 12, 30, 0, 0)
  }

  /** `end`: 2025-06-18 12:00. */
  function PyEnd(): (t: DateTime)
    ensures ValidDateTime(t)
  {
    DateTime(Date(2025, 6, 18), 12, 0, 0, 0)
  }

  /** Whole days from one date to another, as subtracting two `date`s gives them. */
  function DateDiff(later: Date, earlier: Date): (d: int)
    requires ValidDate(later) && ValidDate(earlier)
    ensures d == 0 <==> later == earlier
    ensures d > 0 <==> DateBefore(earlier, later)
  {
    DayNumberOrder(earlier, later);
    DayNumber(later) - DayNumber(earlier)
  }

  /** `day_total`: the days between the two dates, times of day ignored: 337. */
  function DayTotal(): (n: int)
    ensures n == 337
  {
    DateDiff(PyEnd().date, PyStart().date)
  }

  /** `sbk_end`: whole weeks (floor division) from the start date to 2024-09-01: 6. */
  function SbkEnd(): (n: int)
    ensures n == 6
  {
    DateDiff(Date(2024, 9, 1), PyStart().date) / 7
  }

  /** `start_offset`: the start date's weekday, a Tuesday. */
  function StartOffset(): (w: int)
    ensures w == 1
  {
    Weekday(PyStart().date)
  }

  /** `calculate_day_delta_from_now`, with the clock reading as a parameter: whole days
      from the start date to today's date; the time of day plays no part. */
  function DayDelta(now: DateTime): (d: int)
    requires ValidDateTime(now)
    ensures d == 0 <==> now.date == PyStart().date
    ensures d > 0 <==> DateBefore(PyStart().date, now.date)
  {
    DateDiff(now.date, PyStart().date)
  }

  // ---------------------------------------------------------------------------
  // What the table holds

  /** How many integers lie in both [a, b] and [c, d]. */
  function Overlap(a: int, b: int, c: int, d: int): int {
    var lo, hi := Max(a, c), Min(b, d);
    if lo <= hi then hi - lo + 1 else 0
  }

  /** Day number of the last day of month k. */
  function MonthEnd(k: int): int {
    MonthStart(k) + MonthLength(k) - 1
  }

  /** The counters of month k once the days with numbers s through x have been visited
      and the first b of them counted as completed. */
  function EntryAfter(k: int, s: int, x: int, b: int): MonthData {
    MonthData(Max(MonthStart(k), s) % 7,
              Overlap(MonthStart(k), MonthEnd(k), s, Min(x, s + b - 1)),
              Overlap(MonthStart(k), MonthEnd(k), s + b, x))
  }

  /** The table holds an entry for exactly the months lo through k, under the year of
      each, and every entry has the counters of `EntryAfter`. */
  ghost predicate Tallied(ret: Table, lo: int, k: int, s: int, x: int, b: int) {
    KeysWithin(ret, lo, k) && EntriesAfter(ret, lo, k, s, x, b)
  }

  /** Every year and month the table holds lies in the months lo through k. */
  ghost predicate KeysWithin(ret: Table, lo: int, k: int) {
    && (forall y :: y in ret ==> YearOf(lo) <= y <= YearOf(k))
    && (forall y, m :: y in ret && m in ret[y] ==> 1 <= m <= 12 && lo <= MonthIndex(y, m) <= k)
  }

  /** Months lo through k are present, each with the counters of `EntryAfter`. */
  ghost predicate EntriesAfter(ret: Table, lo: int, k: int, s: int, x: int, b: int) {
    forall j {:trigger EntryAfter(j, s, x, b)} :: lo <= j <= k ==>
      YearOf(j) in ret && MonthOf(j) in ret[YearOf(j)] && ret[YearOf(j)][MonthOf(j)] == EntryAfter(j, s, x, b)
  }

  // ---------------------------------------------------------------------------
  // generate_calendar

  /** Python's `date` holds the years 1 through 9999. */
  predicate PyDate(d: Date) {
    ValidDate(d) && 1 <= d.year <= 9999
  }

  /** `date.max`: adding a day to it raises OverflowError. */
  const MaxDate: Date := Date(9999, 12, 31)

  datatype CalendarError = OverflowError

  /** `generate_calendar`, with the module's start and end dates and today's date as
      parameters. When the end date precedes the start date nothing is visited;
      otherwise every month from the start's through the end's has its counters, with
      the first `max(delta, 0)` days completed. Stepping past the last representable
      date, which happens exactly when the end date is that date, raises OverflowError. */
  method GenerateCalendar(start: Date, end: Date, today: Date) returns (r: Result<Table, CalendarError>)
    requires PyDate(start) && PyDate(end) && PyDate(today)
    ensures r.Failure? <==> !DateBefore(end, start) && end == MaxDate
    ensures r.Success? && DateBefore(end, start) ==> r.value == map[]
    ensures r.Success? && !DateBefore(end, start) ==>
              Tallied(r.value, MonthIndex(start.year, start.month), MonthIndex(end.year, end.month),
                      DayNumber(start), DayNumber(end), Max(DateDiff(today, start), 0))
  {
    var ret: Table := map[];
    var current := start;
    var counter := DateDiff(today, start);
    ghost var s, e, b := DayNumber(start), DayNumber(end), Max(counter, 0);
    ghost var lo := MonthIndex(start.year, start.month);
    ghost var n, x, k, last := s, s - 1, lo - 1, start;
    DayNumberBefore(end, start);
    while !DateBefore(end, current)
      invariant PyDate(current) && ValidDate(last) && n == DayNumber(current) && x == n - 1 && s <= n
      invariant n == s ==> ret == map[]
      invariant s < n ==> n <= e + 1
      invariant lo - 1 <= k && lo <= MonthIndex(current.year, current.month)
      invariant MonthIndex(current.year, current.month) == k
                || (MonthIndex(current.year, current.month) == k + 1 && (n == s || current.day == 1))
      invariant s < n ==> DayNumber(last) == x && MonthIndex(last.year, last.month) == k
      invariant counter > 0 ==> counter == b - (n - s)
      invariant counter <= 0 ==> n - s >= b
      invariant Tallied(ret, lo, k, s, x, b)
      decreases e - n
    {
      DayNumberBefore(end, current);
      ret, counter := VisitDate(ret, current, counter, lo, k, s, x, b);
      // `current_date += timedelta(days=1)`
      if current == MaxDate {
        MaxDateIsLast(end);
        return Failure(OverflowError);
      }
      NextPyDate(current);
      k, last, x := MonthIndex(current.year, current.month), current, x + 1;
      current := NextDay(current);
      n := n + 1;
    }
    DayNumberBefore(end, current);
    MaxDateIsLast(current);
    if !DateBefore(end, start) {
      DayNumberSame(last, end);
    }
    r := Success(ret);
  }

  /** The body of the loop for one date: the date's month entry, created on the
      month's first visit with the date's weekday, gains a completed day while the
      counter is positive (spending one from it) and a remaining day otherwise. */
  method VisitDate(ret: Table, current: Date, counter: int, ghost lo: int, ghost k: int,
                   ghost s: int, ghost x: int, ghost b: int)
    returns (ret': Table, counter': int)
    requires ValidDate(current) && b >= 0 && x == DayNumber(current) - 1 && s <= x + 1
    requires Tallied(ret, lo, k, s, x, b)
    requires lo <= MonthIndex(current.year, current.month)
    requires MonthIndex(current.year, current.month) == k
             || (MonthIndex(current.year, current.month) == k + 1 && (x + 1 == s || current.day == 1))
    requires counter > 0 ==> counter == b - (x + 1 - s)
    requires counter <= 0 ==> x + 1 - s >= b
    ensures Tallied(ret', lo, MonthIndex(current.year, current.month), s, x + 1, b)
    ensures counter' > 0 ==> counter' == b - (x + 2 - s)
    ensures counter' <= 0 ==> x + 2 - s >= b
  {
    // `ret.setdefault(year, {})`, then the month's entry, created on the first visit
    var row := if current.year in ret then ret[current.year] else map[];
    var md := if current.month in row then row[current.month] else MonthData(Weekday(current), 0, 0);
    ghost var found := md;
    counter' := counter;
    if counter' > 0 {
      md := md.(completed := md.completed + 1);
      counter' := counter' - 1;
    } else {
      md := md.(remaining := md.remaining + 1);
    }
    ret' := ret[current.year := row[current.month := md]];
    VisitDay(ret, lo, k, s, x, b, current, row, found, md, ret');
  }

  /** No Python date comes after `date.max`, and every other one comes before it. */
  lemma MaxDateIsLast(d: Date)
    requires PyDate(d)
    ensures !DateBefore(MaxDate, d)
    ensures d != MaxDate ==> DateBefore(d, MaxDate)
  {
  }

  /** The day after any Python date but `date.max` is again a Python date, in the same
      month or on the 1st of the next one. */
  lemma NextPyDate(d: Date)
    requires PyDate(d) && d != MaxDate
    ensures var n := NextDay(d);
            PyDate(n) && DayNumber(n) == DayNumber(d) + 1
            && (MonthIndex(n.year, n.month) == MonthIndex(d.year, d.month)
                || (MonthIndex(n.year, n.month) == MonthIndex(d.year, d.month) + 1 && n.day == 1))
  {
  }

  /** Visiting date d: the counters its month has before the visit (stored, or fresh on
      the month's first visit) go up by one in the completed column while the budget
      lasts and in the remaining column after, and storing them keeps the table tallied. */
  lemma VisitDay(before: Table, lo: int, k: int, s: int, x: int, b: int, d: Date,
                 row: map<int, MonthData>, found: MonthData, md: MonthData, after: Table)
    requires ValidDate(d) && b >= 0 && x == DayNumber(d) - 1 && s <= x + 1
    requires Tallied(before, lo, k, s, x, b)
    requires lo <= MonthIndex(d.year, d.month)
    requires MonthIndex(d.year, d.month) == k
             || (MonthIndex(d.year, d.month) == k + 1 && (DayNumber(d) == s || d.day == 1))
    requires row == if d.year in before then before[d.year] else map[]
    requires found == if d.month in row then row[d.month] else MonthData(Weekday(d), 0, 0)
    requires md == if x + 1 - s < b then found.(completed := found.completed + 1)
                   else found.(remaining := found.remaining + 1)
    requires after == before[d.year := row[d.month := md]]
    ensures Tallied(after, lo, MonthIndex(d.year, d.month), s, x + 1, b)
  {
    var kc := MonthIndex(d.year, d.month);
    DateInMonth(d);
    MonthIndexRoundTrip(d.year, d.month);
    if kc == k + 1 {
      assert x + 1 == Max(s, MonthStart(kc));
    }
    LookupEntry(before, lo, k, kc, s, x, b, d.year, d.month);
    StepEntry(kc, s, x, b);
    TallyStep(before, lo, k, kc, s, x, b, d.year, d.month);
  }

  /** The entry the visited day's month has in the table before the visit: the stored
      one, or the fresh one the first visit of the month creates. */
  lemma LookupEntry(before: Table, lo: int, k: int, kc: int, s: int, x: int, b: int, y: int, m: int)
    requires Tallied(before, lo, k, s, x, b) && b >= 0
    requires lo <= kc && (kc == k || kc == k + 1)
    requires 1 <= m <= 12 && MonthIndex(y, m) == kc
    requires kc == k + 1 ==> x + 1 == Max(s, MonthStart(kc)) && x + 1 <= MonthEnd(kc)
    ensures (if y in before && m in before[y] then before[y][m] else MonthData((x + 1) % 7, 0, 0))
            == EntryAfter(kc, s, x, b)
  {
    MonthIndexRoundTrip(y, m);
    if kc == k + 1 {
      FirstVisit(kc, s, x, b);
    }
  }

  /** Before its first visited day a month's counters are all zero, and its offset is
      the weekday of that day. */
  lemma FirstVisit(k: int, s: int, x: int, b: int)
    requires b >= 0 && x + 1 == Max(s, MonthStart(k)) && x + 1 <= MonthEnd(k)
    ensures EntryAfter(k, s, x, b) == MonthData((x + 1) % 7, 0, 0)
  {
  }

  /** Visiting one more day of month k adds one to its completed counter while the
      budget lasts, and one to its remaining counter after that. */
  lemma StepEntry(k: int, s: int, x: int, b: int)
    requires b >= 0 && s <= x + 1 && MonthStart(k) <= x + 1 <= MonthEnd(k)
    ensures var before := EntryAfter(k, s, x, b);
            EntryAfter(k, s, x + 1, b)
            == if x + 1 - s < b then before.(completed := before.completed + 1)
               else before.(remaining := before.remaining + 1)
  {
  }

  /** Days after the end of month j leave its counters alone. */
  lemma PastEntry(j: int, s: int, x: int, b: int)
    requires MonthEnd(j) <= x
    ensures EntryAfter(j, s, x + 1, b) == EntryAfter(j, s, x, b)
  {
  }

  /** Storing the counters of the visited day's month keeps the table tallied. */
  lemma TallyStep(before: Table, lo: int, k: int, kc: int, s: int, x: int, b: int, y: int, m: int)
    requires Tallied(before, lo, k, s, x, b)
    requires lo <= kc && (kc == k || kc == k + 1)
    requires 1 <= m <= 12 && MonthIndex(y, m) == kc
    requires MonthStart(kc) <= x + 1 <= MonthEnd(kc)
    ensures var row := if y in before then before[y] else map[];
            Tallied(before[y := row[m := EntryAfter(kc, s, x + 1, b)]], lo, kc, s, x + 1, b)
  {
    var row := if y in before then before[y] else map[];
    var after := before[y := row[m := EntryAfter(kc, s, x + 1, b)]];
    TallyKeys(before, lo, k, kc, s, x, b, y, m, after);
    TallyEntries(before, lo, k, kc, s, x, b, y, m, after);
  }

  lemma TallyKeys(before: Table, lo: int, k: int, kc: int, s: int, x: int, b: int, y: int, m: int, after: Table)
    requires Tallied(before, lo, k, s, x, b)
    requires lo <= kc && (kc == k || kc == k + 1)
    requires 1 <= m <= 12 && MonthIndex(y, m) == kc
    requires var row := if y in before then before[y] else map[];
             after == before[y := row[m := EntryAfter(kc, s, x + 1, b)]]
    ensures KeysWithin(after, lo, kc)
  {
    MonthIndexRoundTrip(y, m);
  }

  lemma TallyEntries(before: Table, lo: int, k: int, kc: int, s: int, x: int, b: int, y: int, m: int, after: Table)
    requires Tallied(before, lo, k, s, x, b)
    requires lo <= kc && (kc == k || kc == k + 1)
    requires 1 <= m <= 12 && MonthIndex(y, m) == kc
    requires MonthStart(kc) <= x + 1 <= MonthEnd(kc)
    requires var row := if y in before then before[y] else map[];
             after == before[y := row[m := EntryAfter(kc, s, x + 1, b)]]
    ensures EntriesAfter(after, lo, kc, s, x + 1, b)
  {
    MonthIndexRoundTrip(y, m);
    forall j | lo <= j <= kc
      ensures YearOf(j) in after && MonthOf(j) in after[YearOf(j)]
      ensures after[YearOf(j)][MonthOf(j)] == EntryAfter(j, s, x + 1, b)
    {
      IndexMonthRoundTrip(j);
      if j < kc {
        MonthStartMonotone(j, kc);
        PastEntry(j, s, x, b);
      }
    }
  }

  // ---------------------------------------------------------------------------
  // What the finished table promises

  /** The entry of month j, or all-zero counters when the table has none. */
  function EntryOf(t: Table, j: int): MonthData {
    if YearOf(j) in t && MonthOf(j) in t[YearOf(j)] then t[YearOf(j)][MonthOf(j)] else MonthData(0, 0, 0)
  }

  /** The days of months lo through hi, added up. */
  function DaysThrough(t: Table, lo: int, hi: int): int
    decreases hi - lo
  {
    if hi < lo then 0 else DaysThrough(t, lo, hi - 1) + EntryOf(t, hi).Days()
  }

  /** The completed days of months lo through hi, added up. */
  function CompletedThrough(t: Table, lo: int, hi: int): int
    decreases hi - lo
  {
    if hi < lo then 0 else CompletedThrough(t, lo, hi - 1) + EntryOf(t, hi).completed
  }

  /** Two adjacent runs [a, m] and [m + 1, c] meet [lo, hi] in as many integers as [a, c] does. */
  lemma OverlapAdjacent(a: int, m: int, c: int, lo: int, hi: int)
    requires a <= m + 1 <= c + 1
    ensures Overlap(a, m, lo, hi) + Overlap(m + 1, c, lo, hi) == Overlap(a, c, lo, hi)
  {
  }

  /** Cutting [lo, hi] after m (somewhere at or after lo - 1) splits its overlap with [a, c]. */
  lemma OverlapCut(a: int, c: int, lo: int, m: int, hi: int)
    requires lo <= m + 1
    ensures Overlap(a, c, lo, Min(hi, m)) + Overlap(a, c, m + 1, hi) == Overlap(a, c, lo, hi)
  {
  }

  /** A month's completed and remaining days together are its visited days. */
  lemma EntryDays(k: int, s: int, x: int, b: int)
    requires b >= 0
    ensures EntryAfter(k, s, x, b).Days() == Overlap(MonthStart(k), MonthEnd(k), s, x)
  {
    OverlapCut(MonthStart(k), MonthEnd(k), s, s + b - 1, x);
  }

  /** The last day of the month before k is the day before the 1st of month k. */
  lemma MonthEndBefore(k: int)
    ensures MonthEnd(k - 1) + 1 == MonthStart(k)
  {
    MonthStartStep(k - 1);
  }

  /** Months lo through j of a tallied table hold, added up, the visited days that fall
      in them, and the completed days among those. */
  lemma {:induction false} PrefixTotals(t: Table, lo: int, hi: int, j: int, s: int, x: int, b: int)
    requires Tallied(t, lo, hi, s, x, b) && b >= 0 && lo - 1 <= j <= hi
    ensures DaysThrough(t, lo, j) == Overlap(MonthStart(lo), MonthEnd(j), s, x)
    ensures CompletedThrough(t, lo, j) == Overlap(MonthStart(lo), MonthEnd(j), s, Min(x, s + b - 1))
    decreases j - lo
  {
    MonthEndBefore(j + 1);
    if j == lo - 1 {
      MonthEndBefore(lo);
    } else {
      PrefixTotals(t, lo, hi, j - 1, s, x, b);
      var entry := EntryAfter(j, s, x, b);
      assert EntryOf(t, j) == entry;
      EntryDays(j, s, x, b);
      MonthEndBefore(j);
      if lo < j {
        MonthStartMonotone(lo, j);
      }
      var first, mid, last := MonthStart(lo), MonthEnd(j - 1), MonthEnd(j);
      assert DaysThrough(t, lo, j) == DaysThrough(t, lo, j - 1) + entry.Days();
      assert CompletedThrough(t, lo, j) == CompletedThrough(t, lo, j - 1) + entry.completed;
      OverlapAdjacent(first, mid, last, s, x);
      OverlapAdjacent(first, mid, last, s, Min(x, s + b - 1));
    }
  }

  /** A tallied table over the months of days s..x, both visited, holds x - s + 1 days
      in all, of which the first min(b, x - s + 1) are completed. */
  lemma TableTotals(t: Table, lo: int, hi: int, s: int, x: int, b: int)
    requires Tallied(t, lo, hi, s, x, b) && b >= 0 && s <= x && lo <= hi
    requires MonthStart(lo) <= s && x <= MonthEnd(hi)
    ensures DaysThrough(t, lo, hi) == x - s + 1
    ensures CompletedThrough(t, lo, hi) == Min(b, x - s + 1)
  {
    PrefixTotals(t, lo, hi, hi, s, x, b);
    OverlapInside(MonthStart(lo), MonthEnd(hi), s, x);
    CompletedInside(MonthStart(lo), MonthEnd(hi), s, x, b);
  }

  /** The completed days, the first b of the run s..x, all lie inside [a, c]. */
  lemma CompletedInside(a: int, c: int, s: int, x: int, b: int)
    requires a <= s <= x <= c && b >= 0
    ensures Overlap(a, c, s, Min(x, s + b - 1)) == Min(b, x - s + 1)
  {
    OverlapInside(a, c, s, Min(x, s + b - 1));
  }

  /** A run inside [a, c] overlaps it entirely. */
  lemma OverlapInside(a: int, c: int, lo: int, hi: int)
    requires a <= lo && lo <= hi + 1 && hi <= c
    ensures Overlap(a, c, lo, hi) == hi - lo + 1
  {
  }

  /** Days are completed first: once a month has a remaining day, no later month has a
      completed one, so at most one month has both. */
  lemma CompletedBeforeRemaining(j: int, j': int, s: int, x: int, b: int)
    requires j < j'
    ensures EntryAfter(j, s, x, b).remaining > 0 ==> EntryAfter(j', s, x, b).completed == 0
  {
    MonthStartMonotone(j, j');
  }

  /** The offset of the start's month is the start date's weekday; every later month's
      is the weekday of its 1st. */
  lemma MonthOffsets(start: Date, j: int, x: int, b: int)
    requires ValidDate(start) && MonthIndex(start.year, start.month) <= j
    ensures j == MonthIndex(start.year, start.month) ==> EntryAfter(j, DayNumber(start), x, b).offset == Weekday(start)
    ensures j > MonthIndex(start.year, start.month) ==>
              EntryAfter(j, DayNumber(start), x, b).offset == Weekday(Date(YearOf(j), MonthOf(j), 1))
  {
    var lo := MonthIndex(start.year, start.month);
    DateInMonth(start);
    if j > lo {
      MonthStartMonotone(lo, j);
    }
  }

  /** In a tallied table the completed days come first: a month with a remaining day is
      followed only by months without completed days, so at most one month has both. */
  lemma TableCompletedFirst(t: Table, lo: int, hi: int, s: int, x: int, b: int, j: int, j': int)
    requires Tallied(t, lo, hi, s, x, b) && lo <= j < j' <= hi
    ensures EntryOf(t, j).remaining > 0 ==> EntryOf(t, j').completed == 0
  {
    var e, e' := EntryAfter(j, s, x, b), EntryAfter(j', s, x, b);
    assert EntryOf(t, j) == e && EntryOf(t, j') == e';
    CompletedBeforeRemaining(j, j', s, x, b);
  }

  /** In the table built from `start`, the start's month has the start date's weekday as
      its offset and every later month the weekday of its 1st. */
  lemma TableOffsets(t: Table, start: Date, hi: int, x: int, b: int, j: int)
    requires ValidDate(start) && Tallied(t, MonthIndex(start.year, start.month), hi, DayNumber(start), x, b)
    requires MonthIndex(start.year, start.month) <= j <= hi
    ensures YearOf(j) in t && MonthOf(j) in t[YearOf(j)]
    ensures j == MonthIndex(start.year, start.month) ==> t[YearOf(j)][MonthOf(j)].offset == Weekday(start)
    ensures j > MonthIndex(start.year, start.month) ==>
              t[YearOf(j)][MonthOf(j)].offset == Weekday(Date(YearOf(j), MonthOf(j), 1))
  {
    var entry := EntryAfter(j, DayNumber(start), x, b);
    assert YearOf(j) in t && MonthOf(j) in t[YearOf(j)] && t[YearOf(j)][MonthOf(j)] == entry;
    MonthOffsets(start, j, x, b);
  }

  /** What `generate_calendar` returns adds up: the months from the start's through the
      end's hold every day from the start date through the end date, day_total + 1 of
      them, and the completed ones are the first max(delta, 0) of those (all of them
      once delta passes the range). */
  lemma CalendarTotals(start: Date, end: Date, today: Date, ret: Table)
    requires ValidDate(start) && ValidDate(end) && ValidDate(today) && !DateBefore(end, start)
    requires Tallied(ret, MonthIndex(start.year, start.month), MonthIndex(end.year, end.month),
                     DayNumber(start), DayNumber(end), Max(DateDiff(today, start), 0))
    ensures var lo, hi := MonthIndex(start.year, start.month), MonthIndex(end.year, end.month);
            lo <= hi && DaysThrough(ret, lo, hi) == DateDiff(end, start) + 1
    ensures var lo, hi := MonthIndex(start.year, start.month), MonthIndex(end.year, end.month);
            CompletedThrough(ret, lo, hi) == Min(Max(DateDiff(today, start), 0), DateDiff(end, start) + 1)
  {
    var lo, hi := MonthIndex(start.year, start.month), MonthIndex(end.year, end.month);
    DayNumberBefore(end, start);
    DateInMonth(start);
    DateInMonth(end);
    if hi < lo {
      MonthStartMonotone(hi, lo);
    }
    TableTotals(ret, lo, hi, DayNumber(start), DayNumber(end), Max(DateDiff(today, start), 0));
  }

  /** For the module's own dates the calendar has twelve months, July 2024 through
      June 2025, holding 338 days, of which the first max(delta, 0) are completed. */
  lemma PyCalendarTotals(now: DateTime, ret: Table)
    requires ValidDateTime(now)
    requires Tallied(ret, MonthIndex(2024, 7), MonthIndex(2025, 6),
                     DayNumber(PyStart().date), DayNumber(PyEnd().date), Max(DayDelta(now), 0))
    ensures MonthIndex(2025, 6) - MonthIndex(2024, 7) + 1 == 12
    ensures DaysThrough(ret, MonthIndex(2024, 7), MonthIndex(2025, 6)) == DayTotal() + 1 == 338
    ensures CompletedThrough(ret, MonthIndex(2024, 7), MonthIndex(2025, 6)) == Min(Max(DayDelta(now), 0), 338)
  {
    CalendarTotals(PyStart().date, PyEnd().date, now.date, ret);
  }
}
