/** The day cells of one month of the grid (`calendar_months` in src/calendar.rs):
    how many days of the month are counted, how they split into elapsed and
    remaining days, and how many empty cells pad the first row so that the first
    counted day sits under its weekday. The program does this arithmetic on `u8`;
    a subtraction that would go below zero or an addition past 255 is reported
    as a fault, which is what a debug build does (it panics). */
module MonthCells {
  import opened Civil
  import opened Numeric
  import opened Wrappers
  import opened MonthGrid

  /** The cells drawn for a month: `padding` empty cells, then `elapsed` completed
      days, then `remaining` open days. */
  datatype DayCells = DayCells(padding: int, elapsed: int, remaining: int)

  datatype U8Fault = AddOverflow | SubUnderflow

  /** The days a month entry counts: all of a full month, the days after the start's
      day in the start month, the days up to the end's day in the end month. */
  function CountedDays(p: CalendarMonthProp): (n: int)
    requires 1 <= p.month <= 12
    ensures p.duration.Full? ==> n == MonthLength(MonthIndex(p.year, p.month))
    ensures p.duration.StartOffset? && 1 <= p.duration.skip <= DaysInMonth(p.year, p.month) ==>
              n == DayNumber(Date(p.year, p.month, DaysInMonth(p.year, p.month)))
                   - DayNumber(Date(p.year, p.month, p.duration.skip))
    ensures p.duration.EndOffset? && 1 <= p.duration.keep <= DaysInMonth(p.year, p.month) ==>
              n == DayNumber(Date(p.year, p.month, p.duration.keep)) - DayNumber(Date(p.year, p.month, 1)) + 1
  {
    MonthIndexRoundTrip(p.year, p.month);
    match p.duration
    case Full => DaysInMonth(p.year, p.month)
    case StartOffset(d) => DaysInMonth(p.year, p.month) - d
    case EndOffset(d) => d
  }

  /** Exactly the entries whose `u8` arithmetic stays in range. */
  predicate CellsFit(p: CalendarMonthProp)
    requires 1 <= p.month <= 12
  {
    && (p.duration.StartOffset? ==>
          Weekday(Date(p.year, p.month, 1)) + p.duration.skip < 256 && p.duration.skip <= DaysInMonth(p.year, p.month))
    && (p.completion.Partial? ==> p.completion.elapsed <= CountedDays(p))
  }

  /** The cells of one month, as `calendar_months` computes them. */
  method MonthDayCells(p: CalendarMonthProp) returns (r: Result<DayCells, U8Fault>)
    requires 1 <= p.month <= 12
    ensures r.Success? <==> CellsFit(p)
    ensures r.Success? ==> 0 <= r.value.elapsed && 0 <= r.value.remaining
    ensures r.Success? ==> r.value.elapsed + r.value.remaining == CountedDays(p)
    ensures r.Success? ==> 0 <= r.value.padding < 7
    ensures r.Success? && p.duration.StartOffset? && p.duration.skip < DaysInMonth(p.year, p.month) ==>
              r.value.padding == Weekday(Date(p.year, p.month, p.duration.skip + 1))
    ensures r.Success? && !p.duration.StartOffset? ==> r.value.padding == Weekday(Date(p.year, p.month, 1))
    ensures r.Success? && p.completion == Completed ==> r.value.remaining == 0
    ensures r.Success? && p.completion == NotStarted ==> r.value.elapsed == 0
    ensures r.Success? && p.completion.Partial? ==> r.value.elapsed == p.completion.elapsed
  {
    var offset: u8 := Weekday(Date(p.year, p.month, 1));
    var daysInMonth: u8 := DaysInMonth(p.year, p.month);
    match p.duration {
      case Full =>
      case StartOffset(d) =>
        if offset + d >= 256 {
          return Failure(AddOverflow);
        }
        offset := offset + d;
        if d > daysInMonth {
          return Failure(SubUnderflow);
        }
        if d < daysInMonth {
          ShiftedWeekday(p.year, p.month, d);
        }
        daysInMonth := daysInMonth - d;
      case EndOffset(d) =>
        daysInMonth := d;
    }
    var elapsed: u8, remaining: u8;
    match p.completion {
      case Completed =>
        elapsed, remaining := daysInMonth, 0;
      case NotStarted =>
        elapsed, remaining := 0, daysInMonth;
      case Partial(d) =>
        if d > daysInMonth {
          return Failure(SubUnderflow);
        }
        elapsed, remaining := d, daysInMonth - d;
    }
    r := Success(DayCells(offset % 7, elapsed, remaining));
  }

  /** Moving d days into a month moves its weekday by d. */
  lemma ShiftedWeekday(y: int, m: int, d: int)
    requires 1 <= m <= 12 && 0 <= d < DaysInMonth(y, m)
    ensures Weekday(Date(y, m, d + 1)) == (Weekday(Date(y, m, 1)) + d) % 7
  {
    ModShift(DayNumber(Date(y, m, 1)), d, 7);
  }

  // ---------------------------------------------------------------------------
  // The cells of the months the calendar generates

  /** For the generated entries the offset addition never overflows (the padding
      offset is at most 6 + 31 = 37), full months always fit, and the only fault left
      is a partial month whose elapsed days exceed its counted days: in the start
      month once now.day - 1 > length - start.day, in the end month once
      now.day - 1 > end.day. */
  lemma GeneratedCells(start: DateTime, end: DateTime, now: DateTime, i: int)
    requires ValidInputs(start, end, now) && 0 <= i < |Enumeration(start, end, now)|
    ensures var e := Enumeration(start, end, now);
            1 <= e[i].month <= 12
            && (CellsFit(e[i]) <==> !(e[i].completion.Partial? && now.date.day - 1 > CountedDays(e[i])))
    ensures var e := Enumeration(start, end, now);
            e[i].duration.StartOffset? ==> Weekday(Date(e[i].year, e[i].month, 1)) + e[i].duration.skip <= 37
    ensures var e := Enumeration(start, end, now);
            i == 0 ==> CountedDays(e[i]) == DaysInMonth(start.date.year, start.date.month) - start.date.day
    ensures var e := Enumeration(start, end, now);
            0 < i == |e| - 1 ==> CountedDays(e[i]) == end.date.day
    ensures var e := Enumeration(start, end, now);
            0 < i < |e| - 1 ==> CountedDays(e[i]) == DaysInMonth(e[i].year, e[i].month) && CellsFit(e[i])
  {
    var lo, hi := MonthIndexOf(start), MonthIndexOf(end);
    var e := Enumeration(start, end, now);
    assert e[i] == PropAt(start, end, now, lo + i);
    DurationPattern(start, end, now, i);
    MonthIndexRoundTrip(start.date.year, start.date.month);
    if e[i].completion.Partial? && e[i].duration.Full? {
      assert e[i].month == now.date.month;
      assert now.date.day <= DaysInMonth(now.date.year, now.date.month);
    }
  }

  /** The counted days of a list of entries, added up. */
  function TotalCounted(ms: seq<CalendarMonthProp>): int
    requires forall i :: 0 <= i < |ms| ==> 1 <= ms[i].month <= 12
  {
    if ms == [] then 0 else TotalCounted(ms[..|ms| - 1]) + CountedDays(ms[|ms| - 1])
  }

  /** The counted days of the grid are the days after the start's date through the
      end's date; when both fall in one month the start's skip wins and the days
      after the start's date through the end of that month are counted. */
  lemma TotalCountedDays(start: DateTime, end: DateTime, now: DateTime)
    requires ValidInputs(start, end, now)
    requires MonthIndexOf(start) <= MonthIndexOf(end)
    ensures var e := Enumeration(start, end, now);
            forall i :: 0 <= i < |e| ==> 1 <= e[i].month <= 12
    ensures MonthIndexOf(start) < MonthIndexOf(end) ==>
              TotalCounted(Enumeration(start, end, now)) == DayNumber(end.date) - DayNumber(start.date)
    ensures MonthIndexOf(start) == MonthIndexOf(end) ==>
              TotalCounted(Enumeration(start, end, now)) == DaysInMonth(start.date.year, start.date.month) - start.date.day
  {
    SpanMonths(start, end, now, MonthIndexOf(start), MonthIndexOf(end));
    if MonthIndexOf(start) == MonthIndexOf(end) {
      SameMonthTotal(start, end, now);
    } else {
      SeveralMonthsTotal(start, end, now);
      assert Enumeration(start, end, now) == Span(start, end, now, MonthIndexOf(start), MonthIndexOf(end));
    }
  }

  lemma SameMonthTotal(start: DateTime, end: DateTime, now: DateTime)
    requires ValidInputs(start, end, now)
    requires MonthIndexOf(start) == MonthIndexOf(end)
    requires var e := Enumeration(start, end, now);
             forall i :: 0 <= i < |e| ==> 1 <= e[i].month <= 12
    ensures TotalCounted(Enumeration(start, end, now)) == DaysInMonth(start.date.year, start.date.month) - start.date.day
  {
    var e := Enumeration(start, end, now);
    assert e == [] + [e[0]];
    assert e[..0] == [];
    GeneratedCells(start, end, now, 0);
  }

  lemma SeveralMonthsTotal(start: DateTime, end: DateTime, now: DateTime)
    requires ValidInputs(start, end, now)
    requires MonthIndexOf(start) < MonthIndexOf(end)
    ensures var s := Span(start, end, now, MonthIndexOf(start), MonthIndexOf(end));
            (forall i :: 0 <= i < |s| ==> 1 <= s[i].month <= 12)
            && TotalCounted(s) == DayNumber(end.date) - DayNumber(start.date)
  {
    var lo, hi := MonthIndexOf(start), MonthIndexOf(end);
    SpanMonths(start, end, now, lo, hi);
    var init := Span(start, end, now, lo, hi - 1);
    var p := PropAt(start, end, now, hi);
    CountedPrefix(start, end, now, hi - 1);
    SpanSnoc(start, end, now, lo, hi);
    LastMonthDays(start, end, now);
    TotalSnoc(init, p);
  }

  /** The end's month counts the days through the end's date, which closes the run of
      day numbers that starts at the 1st of that month. */
  lemma LastMonthDays(start: DateTime, end: DateTime, now: DateTime)
    requires ValidInputs(start, end, now)
    requires MonthIndexOf(start) < MonthIndexOf(end)
    ensures var p := PropAt(start, end, now, MonthIndexOf(end));
            1 <= p.month <= 12 && CountedDays(p) == end.date.day
            && DayNumber(end.date) == MonthStart(MonthIndexOf(end)) + end.date.day - 1
  {
    MonthIndexRoundTrip(start.date.year, start.date.month);
    MonthIndexRoundTrip(end.date.year, end.date.month);
  }

  lemma SpanMonths(start: DateTime, end: DateTime, now: DateTime, lo: int, hi: int)
    requires ValidInputs(start, end, now)
    ensures var s := Span(start, end, now, lo, hi);
            forall i :: 0 <= i < |s| ==> 1 <= s[i].month <= 12
  {
    var s := Span(start, end, now, lo, hi);
    forall i | 0 <= i < |s|
      ensures 1 <= s[i].month <= 12
    {
      SpanAt(start, end, now, lo, hi, i);
    }
  }

  /** The months from the start's month through month b (before the end's month)
      count the days after the start's date up to the 1st of month b + 1. */
  lemma {:induction false} CountedPrefix(start: DateTime, end: DateTime, now: DateTime, b: int)
    requires ValidInputs(start, end, now)
    requires MonthIndexOf(start) <= b < MonthIndexOf(end)
    ensures var s := Span(start, end, now, MonthIndexOf(start), b);
            (forall i :: 0 <= i < |s| ==> 1 <= s[i].month <= 12)
            && TotalCounted(s) == MonthStart(b + 1) - DayNumber(start.date) - 1
    decreases b - MonthIndexOf(start)
  {
    var lo := MonthIndexOf(start);
    SpanMonths(start, end, now, lo, b);
    SpanMonths(start, end, now, lo, b - 1);
    if b == lo {
      assert Span(start, end, now, lo, b - 1) == [];
      CountedStep(start, end, now, b, 0);
    } else {
      CountedPrefix(start, end, now, b - 1);
      CountedStep(start, end, now, b, MonthStart(b) - DayNumber(start.date) - 1);
    }
  }

  /** One more month on the prefix adds its counted days. */
  lemma CountedStep(start: DateTime, end: DateTime, now: DateTime, b: int, t: int)
    requires ValidInputs(start, end, now)
    requires MonthIndexOf(start) <= b < MonthIndexOf(end)
    requires var s := Span(start, end, now, MonthIndexOf(start), b - 1);
             (forall i :: 0 <= i < |s| ==> 1 <= s[i].month <= 12) && TotalCounted(s) == t
    requires t == if b == MonthIndexOf(start) then 0 else MonthStart(b) - DayNumber(start.date) - 1
    ensures var s := Span(start, end, now, MonthIndexOf(start), b);
            (forall i :: 0 <= i < |s| ==> 1 <= s[i].month <= 12)
            && TotalCounted(s) == MonthStart(b + 1) - DayNumber(start.date) - 1
  {
    var lo := MonthIndexOf(start);
    var init := Span(start, end, now, lo, b - 1);
    var p := PropAt(start, end, now, b);
    SpanMonths(start, end, now, lo, b);
    SpanSnoc(start, end, now, lo, b);
    PrefixMonthDays(start, end, now, b);
    TotalSnoc(init, p);
    MonthStartStep(b);
  }

  /** Adding an entry at the back adds its counted days. */
  lemma TotalSnoc(ms: seq<CalendarMonthProp>, p: CalendarMonthProp)
    requires forall i :: 0 <= i < |ms| ==> 1 <= ms[i].month <= 12
    requires 1 <= p.month <= 12
    ensures TotalCounted(ms + [p]) == TotalCounted(ms) + CountedDays(p)
  {
    assert (ms + [p])[..|ms|] == ms;
  }

  /** Before the end's month, the start's month counts the days after the start's date
      and every later month counts all its days. */
  lemma PrefixMonthDays(start: DateTime, end: DateTime, now: DateTime, b: int)
    requires ValidInputs(start, end, now)
    requires MonthIndexOf(start) <= b < MonthIndexOf(end)
    ensures var p := PropAt(start, end, now, b);
            1 <= p.month <= 12
            && CountedDays(p) == if b == MonthIndexOf(start) then MonthStart(b) + MonthLength(b) - 1 - DayNumber(start.date)
                                 else MonthLength(b)
  {
    var lo := MonthIndexOf(start);
    MonthIndexRoundTrip(start.date.year, start.date.month);
    MonthIndexRoundTrip(end.date.year, end.date.month);
    IndexMonthRoundTrip(b);
    if b == lo {
      assert DayNumber(start.date) == MonthStart(lo) + start.date.day - 1;
    }
  }
}
