/** The month grid (src/calendar.rs): every calendar month from the month of
    `start` to the month of `end`, tagged with how much of it lies in the range
    (its duration) and how much of it lies before `now` (its completion), grouped
    into years in ascending order. Also the per-month layout: the counted days,
    their elapsed/remaining split and the weekday padding before the first cell. */
module MonthGrid {
  import opened Civil
  import opened Numeric
  import opened Wrappers

  datatype MonthCompletion = Completed | NotStarted | Partial(elapsed: u8)

  datatype MonthDuration = Full | StartOffset(skip: u8) | EndOffset(keep: u8)

  datatype CalendarMonthProp = CalendarMonthProp(year: int, month: int, completion: MonthCompletion, duration: MonthDuration)

  datatype CalendarYearProp = CalendarYearProp(year: int, months: seq<CalendarMonthProp>)

  /** Inputs that the program reads as `start()`, `end()` and `now()`. */
  predicate ValidInputs(start: DateTime, end: DateTime, now: DateTime) {
    ValidDateTime(start) && ValidDateTime(end) && ValidDateTime(now)
  }

  // ---------------------------------------------------------------------------
  // Classifying one month

  /** A year is drawn as completed when `now` is in a later year, that is, once
      `now` has reached the midnight that starts the following year. */
  function YearCompleted(now: DateTime, year: int): (done: bool)
    requires ValidDateTime(now)
    ensures done <==> ToMillis(now) >= ToMillis(FirstOfMonth(year + 1, 1))
  {
    InstantVersusMonthStart(now, year + 1, 1);
    now.date.year > year
  }

  /** The start month skips the start's day count; otherwise the end month keeps
      the end's day count; every other month is full. The start test comes first. */
  function DurationOf(start: DateTime, end: DateTime, y: int, m: int): (d: MonthDuration)
    requires ValidDateTime(start) && ValidDateTime(end) && 1 <= m <= 12
    ensures d.StartOffset? <==> MonthIndex(y, m) == MonthIndexOf(start)
    ensures d.EndOffset? <==> MonthIndex(y, m) != MonthIndexOf(start) && MonthIndex(y, m) == MonthIndexOf(end)
    ensures d.StartOffset? ==> d.skip == start.date.day
    ensures d.EndOffset? ==> d.keep == end.date.day
  {
    MonthIndexRoundTrip(y, m);
    MonthIndexRoundTrip(start.date.year, start.date.month);
    MonthIndexRoundTrip(end.date.year, end.date.month);
    if (m, y) == (start.date.month, start.date.year) then StartOffset(start.date.day)
    else if (m, y) == (end.date.month, end.date.year) then EndOffset(end.date.day)
    else Full
  }

  /** How much of month (y, m) lies before `now`. The program compares `now` with
      the midnight that starts the month, then compares only the month number. */
  function CompletionOf(now: DateTime, y: int, m: int): (c: MonthCompletion)
    requires ValidDateTime(now) && 1 <= m <= 12
    ensures c == NotStarted <==> MonthIndexOf(now) < MonthIndex(y, m)
    ensures c == Completed <==> MonthIndexOf(now) >= MonthIndex(y, m) && now.date.month != m
    ensures c.Partial? <==> MonthIndexOf(now) >= MonthIndex(y, m) && now.date.month == m
    ensures c.Partial? ==> c.elapsed == now.date.day - 1
  {
    InstantVersusMonthStart(now, y, m);
    if ToMillis(now) >= ToMillis(FirstOfMonth(y, m)) then
      if now.date.month == m then Partial(now.date.day - 1) else Completed
    else
      NotStarted
  }

  /** The entry for the month with index k. */
  function PropAt(start: DateTime, end: DateTime, now: DateTime, k: int): CalendarMonthProp
    requires ValidInputs(start, end, now)
  {
    var y, m := YearOf(k), MonthOf(k);
    CalendarMonthProp(y, m, CompletionOf(now, y, m), DurationOf(start, end, y, m))
  }

  // ---------------------------------------------------------------------------
  // The reference calendar

  /** The entries for the months with indices lo..hi, in order (empty if hi < lo). */
  function Span(start: DateTime, end: DateTime, now: DateTime, lo: int, hi: int): (s: seq<CalendarMonthProp>)
    requires ValidInputs(start, end, now)
    ensures |s| == Max(hi - lo + 1, 0)
  {
    seq(Max(hi - lo + 1, 0), i requires 0 <= i < Max(hi - lo + 1, 0) => PropAt(start, end, now, lo + i))
  }

  /** Every month from the start's month through the end's month, one entry each, in
      chronological order; the first is the start's month and the last the end's. */
  function Enumeration(start: DateTime, end: DateTime, now: DateTime): (e: seq<CalendarMonthProp>)
    requires ValidInputs(start, end, now)
    ensures |e| == Max((end.date.year - start.date.year) * 12 + end.date.month - start.date.month + 1, 0)
    ensures forall i, j :: 0 <= i < j < |e| ==> MonthIndex(e[i].year, e[i].month) < MonthIndex(e[j].year, e[j].month)
    ensures |e| > 0 ==> e[0].year == start.date.year && e[0].month == start.date.month
    ensures |e| > 0 ==> e[|e| - 1].year == end.date.year && e[|e| - 1].month == end.date.month
  {
    var lo, hi := MonthIndexOf(start), MonthIndexOf(end);
    var e := Span(start, end, now, lo, hi);
    forall i | 0 <= i < |e|
      ensures MonthIndex(e[i].year, e[i].month) == lo + i
    {
      SpanAt(start, end, now, lo, hi, i);
      IndexMonthRoundTrip(lo + i);
    }
    MonthIndexRoundTrip(start.date.year, start.date.month);
    MonthIndexRoundTrip(end.date.year, end.date.month);
    if |e| == 0 then e
    else
      SpanAt(start, end, now, lo, hi, 0);
      SpanAt(start, end, now, lo, hi, hi - lo);
      e
  }

  /** The months of year y that the enumeration covers, in order. */
  function YearMonths(start: DateTime, end: DateTime, now: DateTime, y: int): seq<CalendarMonthProp>
    requires ValidInputs(start, end, now)
  {
    Span(start, end, now, Max(MonthIndexOf(start), 12 * y), Min(MonthIndexOf(end), 12 * y + 11))
  }

  /** Every year from the start's year through the end's year, ascending, each with
      its covered months. */
  function CalendarSpec(start: DateTime, end: DateTime, now: DateTime): (cal: seq<CalendarYearProp>)
    requires ValidInputs(start, end, now)
    ensures forall p, q :: 0 <= p < q < |cal| ==> cal[p].year < cal[q].year
    ensures |cal| > 0 ==> cal[0].year == start.date.year && cal[|cal| - 1].year == end.date.year
    ensures |cal| > 0 <==> MonthIndexOf(start) <= MonthIndexOf(end)
  {
    MonthIndexRoundTrip(start.date.year, start.date.month);
    MonthIndexRoundTrip(end.date.year, end.date.month);
    var lo, hi := MonthIndexOf(start), MonthIndexOf(end);
    var n := if lo <= hi then YearOf(hi) - YearOf(lo) + 1 else 0;
    seq(n, i => CalendarYearProp(YearOf(lo) + i, YearMonths(start, end, now, YearOf(lo) + i)))
  }

  /** The months of a list of years, read year after year. */
  function Flatten(years: seq<CalendarYearProp>): seq<CalendarMonthProp> {
    if years == [] then [] else Flatten(years[..|years| - 1]) + years[|years| - 1].months
  }

  // ---------------------------------------------------------------------------
  // Building the calendar as the program does

  /** The month loop: walk from the 1st of the start's month one month at a time
      while the 1st of the walked month is not after the end moved to the 1st of its
      month, appending each month's entry to its year in a year-keyed table. */
  method BuildYearTable(start: DateTime, end: DateTime, now: DateTime) returns (table: map<int, CalendarYearProp>)
    requires ValidInputs(start, end, now)
    ensures forall yy :: yy in table <==>
              MonthIndexOf(start) <= MonthIndexOf(end) && YearOf(MonthIndexOf(start)) <= yy <= YearOf(MonthIndexOf(end))
    ensures forall yy :: yy in table ==> table[yy] == CalendarYearProp(yy, YearMonths(start, end, now, yy))
  {
    var lo, hi := MonthIndexOf(start), MonthIndexOf(end);
    table := map[];
    var y, m := start.date.year, start.date.month;
    MonthStartVersusFirstDay(y, m, end);
    FilledThroughNothing(start, end, now);
    while ToMillis(FirstOfMonth(y, m)) <= ToMillis(WithFirstDay(end))
      invariant 1 <= m <= 12
      invariant ToMillis(FirstOfMonth(y, m)) <= ToMillis(WithFirstDay(end)) <==> MonthIndex(y, m) <= hi
      invariant lo <= MonthIndex(y, m) <= Max(lo, hi + 1)
      invariant FilledThrough(start, end, now, table, MonthIndex(y, m))
      decreases hi - MonthIndex(y, m)
    {
      ghost var next := MonthIndex(y, m) + 1;
      table := AddMonth(start, end, now, table, y, m);
      if m == 12 {
        y, m := y + 1, 1;
      } else {
        m := m + 1;
      }
      assert MonthIndex(y, m) == next;
      MonthStartVersusFirstDay(y, m, end);
    }
    FilledThroughAll(start, end, now, table, MonthIndex(y, m));
  }

  /** One pass of the month loop: month (y, m) joins its year's entry, which is created
      empty when the table has none yet. */
  method AddMonth(start: DateTime, end: DateTime, now: DateTime, table: map<int, CalendarYearProp>, y: int, m: int)
    returns (table': map<int, CalendarYearProp>)
    requires ValidInputs(start, end, now) && 1 <= m <= 12
    requires MonthIndexOf(start) <= MonthIndex(y, m) && FilledThrough(start, end, now, table, MonthIndex(y, m))
    ensures FilledThrough(start, end, now, table', MonthIndex(y, m) + 1)
  {
    var entry := if y in table then table[y] else CalendarYearProp(y, []);
    var prop := CalendarMonthProp(y, m, CompletionOf(now, y, m), DurationOf(start, end, y, m));
    AppendMonth(start, end, now, table, y, m);
    table' := table[y := entry.(months := entry.months + [prop])];
  }

  lemma NonEmptyHasMember(s: set<int>)
    requires s != {}
    ensures exists x :: x in s
  {
    if forall x :: x !in s {
      assert false;
    }
  }

  /** The table's values in the table's own (unspecified) iteration order. */
  method CollectYears(table: map<int, CalendarYearProp>) returns (years: seq<CalendarYearProp>)
    requires forall yy :: yy in table ==> table[yy].year == yy
    ensures |years| == |table.Keys|
    ensures forall i :: 0 <= i < |years| ==> years[i].year in table && years[i] == table[years[i].year]
    ensures forall i, j :: 0 <= i < j < |years| ==> years[i].year != years[j].year
  {
    var keys := table.Keys;
    years := [];
    while keys != {}
      invariant keys <= table.Keys
      invariant |years| + |keys| == |table.Keys|
      invariant forall i :: 0 <= i < |years| ==> years[i].year in table && years[i] == table[years[i].year]
      invariant forall i :: 0 <= i < |years| ==> years[i].year !in keys
      invariant forall i, j :: 0 <= i < j < |years| ==> years[i].year != years[j].year
      decreases |keys|
    {
      NonEmptyHasMember(keys);
      var yy :| yy in keys;
      years := years + [table[yy]];
      keys := keys - {yy};
    }
  }

  /** Sorting the years by year number, in place (an insertion sort standing in for
      the library's sort). */
  method SortByYear(a: array<CalendarYearProp>)
    modifies a
    ensures forall p, q :: 0 <= p < q < a.Length ==> a[p].year <= a[q].year
    ensures multiset(a[..]) == old(multiset(a[..]))
  {
    var i := 1;
    while i < a.Length
      invariant 1 <= i <= Max(a.Length, 1)
      invariant forall p, q :: 0 <= p < q < i && q < a.Length ==> a[p].year <= a[q].year
      invariant multiset(a[..]) == old(multiset(a[..]))
    {
      InsertLast(a, i);
      i := i + 1;
    }
  }

  /** Moves a[i] down into the sorted prefix a[..i], so that a[..i + 1] is sorted. */
  method InsertLast(a: array<CalendarYearProp>, i: int)
    requires 0 < i < a.Length
    requires forall p, q :: 0 <= p < q < i ==> a[p].year <= a[q].year
    modifies a
    ensures forall p, q :: 0 <= p < q <= i ==> a[p].year <= a[q].year
    ensures forall p :: i < p < a.Length ==> a[p] == old(a[p])
    ensures multiset(a[..]) == old(multiset(a[..]))
  {
    var j := i;
    while j > 0 && a[j - 1].year > a[j].year
      invariant 0 <= j <= i
      invariant forall p, q :: 0 <= p < q <= i && p != j && q != j ==> a[p].year <= a[q].year
      invariant forall p, q :: 0 <= p < j < q <= i ==> a[p].year <= a[q].year
      invariant forall q :: j < q <= i ==> a[j].year < a[q].year
      invariant forall p :: i < p < a.Length ==> a[p] == old(a[p])
      invariant multiset(a[..]) == old(multiset(a[..]))
    {
      SwapAdjacent(a, j);
      j := j - 1;
    }
  }

  method SwapAdjacent(a: array<CalendarYearProp>, j: int)
    requires 0 < j < a.Length
    modifies a
    ensures a[j - 1] == old(a[j]) && a[j] == old(a[j - 1])
    ensures forall p :: 0 <= p < a.Length && p != j - 1 && p != j ==> a[p] == old(a[p])
    ensures multiset(a[..]) == old(multiset(a[..]))
  {
    a[j - 1], a[j] := a[j], a[j - 1];
  }

  /** The whole calendar: build the year table, take its values, sort them by year. */
  method BuildCalendar(start: DateTime, end: DateTime, now: DateTime) returns (years: seq<CalendarYearProp>)
    requires ValidInputs(start, end, now)
    ensures years == CalendarSpec(start, end, now)
    ensures Flatten(years) == Enumeration(start, end, now)
  {
    var table := BuildYearTable(start, end, now);
    var values := CollectYears(table);
    var a := new CalendarYearProp[|values|](i requires 0 <= i < |values| => values[i]);
    assert a[..] == values;
    SortByYear(a);
    years := a[..];

    forall i | 0 <= i < |years|
      ensures years[i].year in table && years[i] == table[years[i].year]
    {
      assert years[i] in multiset(values);
    }
    SortedDistinctAscends(values, years);
    SortedTableIsCalendar(start, end, now, table, years);
    FlattenCalendar(start, end, now);
  }

  /** The table's entries listed by strictly ascending year, all of them, are the calendar. */
  lemma SortedTableIsCalendar(start: DateTime, end: DateTime, now: DateTime, table: map<int, CalendarYearProp>, years: seq<CalendarYearProp>)
    requires ValidInputs(start, end, now)
    requires forall yy :: yy in table <==>
               MonthIndexOf(start) <= MonthIndexOf(end) && YearOf(MonthIndexOf(start)) <= yy <= YearOf(MonthIndexOf(end))
    requires forall yy :: yy in table ==> table[yy] == CalendarYearProp(yy, YearMonths(start, end, now, yy))
    requires |years| == |table.Keys|
    requires forall i :: 0 <= i < |years| ==> years[i].year in table && years[i] == table[years[i].year]
    requires forall p, q :: 0 <= p < q < |years| ==> years[p].year < years[q].year
    ensures years == CalendarSpec(start, end, now)
  {
    var lo, hi := MonthIndexOf(start), MonthIndexOf(end);
    var n := if lo <= hi then YearOf(hi) - YearOf(lo) + 1 else 0;
    YearKeysCount(table.Keys, lo, hi);
    ConsecutiveRun(years, YearOf(lo), n);
    var spec := CalendarSpec(start, end, now);
    assert |spec| == n;
    forall i | 0 <= i < n
      ensures years[i] == spec[i]
    {
      assert years[i] == table[YearOf(lo) + i];
    }
  }

  /** The years lo / 12 .. hi / 12 are as many as the calendar has entries. */
  lemma YearKeysCount(keys: set<int>, lo: int, hi: int)
    requires forall yy :: yy in keys <==> lo <= hi && YearOf(lo) <= yy <= YearOf(hi)
    ensures |keys| == if lo <= hi then YearOf(hi) - YearOf(lo) + 1 else 0
  {
    if lo <= hi {
      assert keys == IntRange(YearOf(lo), YearOf(hi));
    } else if keys != {} {
      NonEmptyHasMember(keys);
      assert false;
    }
  }

  /** A sorted permutation of a list with pairwise distinct years is strictly ascending,
      as long as equal years mean equal entries. */
  lemma SortedDistinctAscends(values: seq<CalendarYearProp>, years: seq<CalendarYearProp>)
    requires forall i, j :: 0 <= i < j < |values| ==> values[i].year != values[j].year
    requires multiset(years) == multiset(values)
    requires forall p, q :: 0 <= p < q < |years| ==> years[p].year <= years[q].year
    requires forall p, q :: 0 <= p < q < |years| && years[p].year == years[q].year ==> years[p] == years[q]
    ensures forall p, q :: 0 <= p < q < |years| ==> years[p].year < years[q].year
  {
    forall p, q | 0 <= p < q < |years|
      ensures years[p].year < years[q].year
    {
      if years[p].year == years[q].year {
        RepeatedCountsTwo(years, p, q);
        DistinctCountsOne(values, years[p]);
        assert false;
      }
    }
  }

  lemma {:induction false} DistinctCountsOne(s: seq<CalendarYearProp>, x: CalendarYearProp)
    requires forall i, j :: 0 <= i < j < |s| ==> s[i].year != s[j].year
    ensures multiset(s)[x] <= 1
  {
    if s != [] {
      var init := s[..|s| - 1];
      assert s == init + [s[|s| - 1]];
      DistinctCountsOne(init, x);
      if x == s[|s| - 1] {
        assert x !in init;
      }
    }
  }

  lemma RepeatedCountsTwo(s: seq<CalendarYearProp>, p: int, q: int)
    requires 0 <= p < q < |s| && s[p] == s[q]
    ensures multiset(s)[s[p]] >= 2
  {
    assert s == s[..q] + [s[q]] + s[q + 1..];
    assert s[p] in s[..q];
  }

  // ---------------------------------------------------------------------------
  // Lemmas about the reference calendar

  /** The table holds exactly the months with indices from the start's month up to next - 1. */
  ghost predicate FilledThrough(start: DateTime, end: DateTime, now: DateTime, table: map<int, CalendarYearProp>, next: int)
    requires ValidInputs(start, end, now)
  {
    var lo := MonthIndexOf(start);
    && (forall yy :: yy in table <==> lo < next && YearOf(lo) <= yy <= YearOf(next - 1))
    && (forall yy :: yy in table ==>
          table[yy] == CalendarYearProp(yy, Span(start, end, now, Max(lo, 12 * yy), Min(next - 1, 12 * yy + 11))))
  }

  lemma FilledThroughNothing(start: DateTime, end: DateTime, now: DateTime)
    requires ValidInputs(start, end, now)
    ensures FilledThrough(start, end, now, map[], MonthIndexOf(start))
  {
  }

  lemma FilledThroughAll(start: DateTime, end: DateTime, now: DateTime, table: map<int, CalendarYearProp>, next: int)
    requires ValidInputs(start, end, now)
    requires FilledThrough(start, end, now, table, next)
    requires next == if MonthIndexOf(start) <= MonthIndexOf(end) then MonthIndexOf(end) + 1 else MonthIndexOf(start)
    ensures forall yy :: yy in table <==>
              MonthIndexOf(start) <= MonthIndexOf(end) && YearOf(MonthIndexOf(start)) <= yy <= YearOf(MonthIndexOf(end))
    ensures forall yy :: yy in table ==> table[yy] == CalendarYearProp(yy, YearMonths(start, end, now, yy))
  {
  }

  /** One step of the month loop: appending month (y, m) to its year's entry extends
      the table by that month. */
  lemma AppendMonth(start: DateTime, end: DateTime, now: DateTime, table: map<int, CalendarYearProp>, y: int, m: int)
    requires ValidInputs(start, end, now) && 1 <= m <= 12
    requires MonthIndexOf(start) <= MonthIndex(y, m) && FilledThrough(start, end, now, table, MonthIndex(y, m))
    ensures var entry := if y in table then table[y] else CalendarYearProp(y, []);
            var prop := CalendarMonthProp(y, m, CompletionOf(now, y, m), DurationOf(start, end, y, m));
            FilledThrough(start, end, now, table[y := entry.(months := entry.months + [prop])], MonthIndex(y, m) + 1)
  {
    var lo := MonthIndexOf(start);
    var k := MonthIndex(y, m);
    MonthIndexRoundTrip(y, m);
    assert PropAt(start, end, now, k) == CalendarMonthProp(y, m, CompletionOf(now, y, m), DurationOf(start, end, y, m));
    var entry := if y in table then table[y] else CalendarYearProp(y, []);
    var table' := table[y := entry.(months := entry.months + [PropAt(start, end, now, k)])];
    var first := Max(lo, 12 * y);
    assert 12 * y <= k <= 12 * y + 11;
    assert YearOf(lo) <= y;
    if y !in table {
      assert first == k;
      assert Span(start, end, now, first, k - 1) == [];
    }
    assert entry.months == Span(start, end, now, first, k - 1);
    SpanSnoc(start, end, now, first, k);
    assert table'[y].months == Span(start, end, now, first, Min(k, 12 * y + 11));
    forall yy | yy in table' && yy != y
      ensures table'[yy] == CalendarYearProp(yy, Span(start, end, now, Max(lo, 12 * yy), Min(k, 12 * yy + 11)))
    {
      assert yy < y;
      assert Min(k, 12 * yy + 11) == Min(k - 1, 12 * yy + 11);
    }
    forall yy
      ensures yy in table' <==> lo < k + 1 && YearOf(lo) <= yy <= YearOf(k)
    {
      assert YearOf(k - 1) == y || YearOf(k - 1) == y - 1;
    }
  }

  /** Entry i of a span is the month with index lo + i. */
  lemma SpanAt(start: DateTime, end: DateTime, now: DateTime, lo: int, hi: int, i: int)
    requires ValidInputs(start, end, now) && 0 <= i <= hi - lo
    ensures Span(start, end, now, lo, hi)[i] == PropAt(start, end, now, lo + i)
    ensures Span(start, end, now, lo, hi)[i].year == YearOf(lo + i)
    ensures Span(start, end, now, lo, hi)[i].month == MonthOf(lo + i)
  {
    var e := Span(start, end, now, lo, hi);
    assert e[i] == PropAt(start, end, now, lo + i);
  }

  lemma SpanSnoc(start: DateTime, end: DateTime, now: DateTime, lo: int, k: int)
    requires ValidInputs(start, end, now) && lo <= k
    ensures Span(start, end, now, lo, k) == Span(start, end, now, lo, k - 1) + [PropAt(start, end, now, k)]
  {
  }

  lemma {:induction false} SpanAppend(start: DateTime, end: DateTime, now: DateTime, lo: int, mid: int, hi: int)
    requires ValidInputs(start, end, now) && lo <= mid + 1 <= hi + 1
    ensures Span(start, end, now, lo, hi) == Span(start, end, now, lo, mid) + Span(start, end, now, mid + 1, hi)
  {
    var a, b, c := Span(start, end, now, lo, hi), Span(start, end, now, lo, mid), Span(start, end, now, mid + 1, hi);
    assert |a| == |b| + |c|;
    forall i | 0 <= i < |a|
      ensures a[i] == (b + c)[i]
    {
    }
  }

  /** The integers lo..hi. */
  function IntRange(lo: int, hi: int): (r: set<int>)
    ensures forall x :: x in r <==> lo <= x <= hi
    ensures |r| == Max(hi - lo + 1, 0)
    decreases hi - lo
  {
    if hi < lo then {} else IntRange(lo, hi - 1) + {hi}
  }

  /** n strictly ascending years between y0 and y0 + n - 1 are exactly y0, y0 + 1, ... */
  lemma ConsecutiveRun(years: seq<CalendarYearProp>, y0: int, n: int)
    requires |years| == n
    requires forall i :: 0 <= i < n ==> y0 <= years[i].year < y0 + n
    requires forall i, j :: 0 <= i < j < n ==> years[i].year < years[j].year
    ensures forall i :: 0 <= i < n ==> years[i].year == y0 + i
  {
    forall i | 0 <= i < n
      ensures years[i].year == y0 + i
    {
      AscendingFloor(years, y0, i);
      AscendingCeiling(years, y0 + n - 1, i);
    }
  }

  lemma {:induction false} AscendingFloor(years: seq<CalendarYearProp>, y0: int, i: int)
    requires 0 <= i < |years|
    requires forall k :: 0 <= k < |years| ==> y0 <= years[k].year
    requires forall p, q :: 0 <= p < q < |years| ==> years[p].year < years[q].year
    ensures years[i].year >= y0 + i
  {
    if i > 0 {
      AscendingFloor(years, y0, i - 1);
    }
  }

  lemma {:induction false} AscendingCeiling(years: seq<CalendarYearProp>, top: int, i: int)
    requires 0 <= i < |years|
    requires forall k :: 0 <= k < |years| ==> years[k].year <= top
    requires forall p, q :: 0 <= p < q < |years| ==> years[p].year < years[q].year
    ensures years[i].year <= top - (|years| - 1 - i)
    decreases |years| - i
  {
    if i < |years| - 1 {
      AscendingCeiling(years, top, i + 1);
    }
  }

  /** Reading the calendar year after year gives back the month enumeration. */
  lemma FlattenCalendar(start: DateTime, end: DateTime, now: DateTime)
    requires ValidInputs(start, end, now)
    ensures Flatten(CalendarSpec(start, end, now)) == Enumeration(start, end, now)
  {
    var lo, hi := MonthIndexOf(start), MonthIndexOf(end);
    var cal := CalendarSpec(start, end, now);
    if lo <= hi {
      FlattenPrefix(start, end, now, |cal|);
      assert cal[..|cal|] == cal;
    }
  }

  lemma {:induction false} FlattenPrefix(start: DateTime, end: DateTime, now: DateTime, j: int)
    requires ValidInputs(start, end, now)
    requires MonthIndexOf(start) <= MonthIndexOf(end)
    requires 1 <= j <= |CalendarSpec(start, end, now)|
    ensures Flatten(CalendarSpec(start, end, now)[..j])
            == Span(start, end, now, MonthIndexOf(start), Min(MonthIndexOf(end), 12 * (YearOf(MonthIndexOf(start)) + j - 1) + 11))
  {
    var lo, hi := MonthIndexOf(start), MonthIndexOf(end);
    var cal := CalendarSpec(start, end, now);
    var y0 := YearOf(lo);
    var prefix := cal[..j];
    var y := y0 + j - 1;
    assert cal[j - 1] == CalendarYearProp(y, YearMonths(start, end, now, y));
    assert prefix[..j - 1] == cal[..j - 1];
    assert Flatten(prefix) == Flatten(cal[..j - 1]) + cal[j - 1].months;
    if j == 1 {
      assert cal[..0] == [];
      assert Max(lo, 12 * y) == lo;
    } else {
      FlattenPrefix(start, end, now, j - 1);
      assert 12 * y > lo && 12 * y <= hi;
      assert Max(lo, 12 * y) == 12 * y;
      assert Min(hi, 12 * (y0 + j - 2) + 11) == 12 * y - 1;
      SpanAppend(start, end, now, lo, 12 * y - 1, Min(hi, 12 * y + 11));
    }
  }

  // ---------------------------------------------------------------------------
  // Properties of the enumeration and of the grouped calendar

  /** The start month skips, the end month (when it is another month) keeps, every
      month in between is full. */
  lemma DurationPattern(start: DateTime, end: DateTime, now: DateTime, i: int)
    requires ValidInputs(start, end, now) && 0 <= i < |Enumeration(start, end, now)|
    ensures var e := Enumeration(start, end, now);
            e[i].duration == if i == 0 then StartOffset(start.date.day)
                             else if i == |e| - 1 then EndOffset(end.date.day)
                             else Full
  {
    var lo, hi := MonthIndexOf(start), MonthIndexOf(end);
    var e := Enumeration(start, end, now);
    assert e[i] == PropAt(start, end, now, lo + i);
    MonthIndexRoundTrip(start.date.year, start.date.month);
    MonthIndexRoundTrip(end.date.year, end.date.month);
    IndexMonthRoundTrip(lo + i);
  }

  /** Completion only looks at the month number once `now` has reached a month, so two
      entries can both be partial only when they are whole years apart. */
  lemma PartialsYearsApart(start: DateTime, end: DateTime, now: DateTime, i: int, j: int)
    requires ValidInputs(start, end, now) && 0 <= i < j < |Enumeration(start, end, now)|
    requires Enumeration(start, end, now)[i].completion.Partial?
    requires Enumeration(start, end, now)[j].completion.Partial?
    ensures var e := Enumeration(start, end, now);
            e[i].month == e[j].month == now.date.month && e[i].year < e[j].year && j - i >= 12
  {
    var lo, hi := MonthIndexOf(start), MonthIndexOf(end);
    var e := Enumeration(start, end, now);
    assert e == Span(start, end, now, lo, hi);
    SpanAt(start, end, now, lo, hi, i);
    SpanAt(start, end, now, lo, hi, j);
    SameMonthYearsApart(lo + i, lo + j);
  }

  /** Two month indices naming the same calendar month lie whole years apart. */
  lemma SameMonthYearsApart(a: int, b: int)
    requires a < b && MonthOf(a) == MonthOf(b)
    ensures b - a == 12 * (YearOf(b) - YearOf(a)) && YearOf(a) < YearOf(b)
  {
    IndexMonthRoundTrip(a);
    IndexMonthRoundTrip(b);
  }

  /** A range of at most twelve months shows at most one partial month. */
  lemma AtMostOnePartial(start: DateTime, end: DateTime, now: DateTime)
    requires ValidInputs(start, end, now) && |Enumeration(start, end, now)| <= 12
    ensures var e := Enumeration(start, end, now);
            forall i, j :: 0 <= i < |e| && 0 <= j < |e| && e[i].completion.Partial? && e[j].completion.Partial? ==> i == j
  {
    var e := Enumeration(start, end, now);
    forall i, j | 0 <= i < |e| && 0 <= j < |e| && e[i].completion.Partial? && e[j].completion.Partial?
      ensures i == j
    {
      if i < j {
        PartialsYearsApart(start, end, now, i, j);
      } else if j < i {
        PartialsYearsApart(start, end, now, j, i);
      }
    }
  }

  /** Every year of the calendar has at least one month, and all its months belong to it. */
  lemma YearsHoldTheirMonths(start: DateTime, end: DateTime, now: DateTime, i: int)
    requires ValidInputs(start, end, now) && 0 <= i < |CalendarSpec(start, end, now)|
    ensures var c := CalendarSpec(start, end, now)[i];
            |c.months| > 0 && forall k :: 0 <= k < |c.months| ==> c.months[k].year == c.year
  {
    var lo, hi := MonthIndexOf(start), MonthIndexOf(end);
    var c := CalendarSpec(start, end, now)[i];
    var y := YearOf(lo) + i;
    assert c == CalendarYearProp(y, YearMonths(start, end, now, y));
    var first, last := Max(lo, 12 * y), Min(hi, 12 * y + 11);
    assert first <= last;
    forall k | 0 <= k < |c.months|
      ensures c.months[k].year == y
    {
      SpanAt(start, end, now, first, last, k);
      assert 12 * y <= first + k <= 12 * y + 11;
    }
  }
}
