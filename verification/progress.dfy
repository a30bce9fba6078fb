/** The progress panel (src/stats.rs): the date heading with its ordinal suffix,
    the "Day N of M (K left)" line and the `H:MM:SS.mmm` countdown to the end of
    the range. Durations are whole milliseconds; chrono's `num_*` conversions
    truncate toward zero and Rust's `%` keeps the sign of the dividend, so after
    the end every field of the countdown turns negative on its own. */
module Progress {
  import opened Civil
  import opened Numeric
  import opened Text
  import opened Wrappers
  import opened App

  // ---------------------------------------------------------------------------
  // Durations

  /** The duration from b to a, in milliseconds (`a - b` on two instants). */
  function Delta(a: DateTime, b: DateTime): int
    requires ValidDateTime(a) && ValidDateTime(b)
  {
    ToMillis(a) - ToMillis(b)
  }

  /** `num_seconds`: whole seconds, truncated toward zero, so that less than a second
      is left over, with the sign of the duration. */
  function WholeSeconds(ms: int): (r: int)
    ensures ms >= 0 ==> 0 <= ms - 1000 * r < 1000
    ensures ms < 0 ==> -1000 < ms - 1000 * r <= 0
  {
    TDiv(ms, 1000)
  }

  /** `num_minutes`: whole seconds divided by 60, truncated toward zero; the same as
      truncating the milliseconds once by 60 000. */
  function WholeMinutes(ms: int): (r: int)
    ensures r == TDiv(ms, 60_000)
  {
    TDivTDiv(ms, 1000, 60);
    TDiv(WholeSeconds(ms), 60)
  }

  /** `num_hours`: whole seconds divided by 3600, truncated toward zero; the same as
      truncating the milliseconds once by 3 600 000. */
  function WholeHours(ms: int): (r: int)
    ensures r == TDiv(ms, 3_600_000)
  {
    TDivTDiv(ms, 1000, 3600);
    TDiv(WholeSeconds(ms), 3600)
  }

  /** `num_days`: whole seconds divided by 86400, truncated toward zero. */
  function WholeDays(ms: int): (d: int)
    ensures d == TDiv(ms, MillisPerDay)
  {
    TDivTDiv(ms, 1000, 86400);
    TDiv(WholeSeconds(ms), 86400)
  }

  // ---------------------------------------------------------------------------
  // The countdown

  /** The four fields of the countdown: hours without a modulus, then minutes and
      seconds modulo 60 and milliseconds modulo 1000, each remainder with the sign
      of what was divided. */
  datatype CountdownFields = CountdownFields(hours: int, minutes: int, seconds: int, millis: int)

  /** The fields add back up to the remaining time; before the end they are the usual
      clock readings, after it they are all zero or negative. */
  function Fields(remaining: int): (f: CountdownFields)
    ensures ClockMillis(f.hours, f.minutes, f.seconds, f.millis) == remaining
    ensures remaining >= 0 ==> f.hours >= 0 && 0 <= f.minutes < 60 && 0 <= f.seconds < 60 && 0 <= f.millis < 1000
    ensures remaining < 0 ==> f.hours <= 0 && -60 < f.minutes <= 0 && -60 < f.seconds <= 0 && -1000 < f.millis <= 0
  {
    var s, m := WholeSeconds(remaining), WholeMinutes(remaining);
    TDivTDiv(s, 60, 60);
    assert WholeHours(remaining) == TDiv(m, 60);
    assert remaining == 1000 * s + TMod(remaining, 1000);
    assert s == 60 * m + TMod(s, 60);
    assert m == 60 * WholeHours(remaining) + TMod(m, 60);
    CountdownFields(WholeHours(remaining), TMod(m, 60), TMod(s, 60), TMod(remaining, 1000))
  }

  /** The milliseconds an hours:minutes:seconds.millis reading stands for. */
  function ClockMillis(hours: int, minutes: int, seconds: int, millis: int): int {
    hours * 3_600_000 + minutes * 60_000 + seconds * 1000 + millis
  }

  /** `format!("{}:{:0>2}:{:0>2}.{:0>3}", ...)` of the fields. */
  function Countdown(remaining: int): string {
    var f := Fields(remaining);
    IntToDecimal(f.hours) + ":" + PadLeftZeros(IntToDecimal(f.minutes), 2) + ":"
    + PadLeftZeros(IntToDecimal(f.seconds), 2) + "." + PadLeftZeros(IntToDecimal(f.millis), 3)
  }

  /** Reads an `H:MM:SS.mmm` string of digits back into milliseconds. */
  function ParseCountdown(t: string): Option<int> {
    if IsCountdownShape(t) then Some(CountdownValue(t)) else None
  }

  /** Digits, ':', two digits, ':', two digits, '.', three digits. */
  predicate IsCountdownShape(t: string) {
    var n := |t|;
    n >= 11 && AllDigits(t[..n - 10])
    && t[n - 10] == ':' && IsDigit(t[n - 9]) && IsDigit(t[n - 8])
    && t[n - 7] == ':' && IsDigit(t[n - 6]) && IsDigit(t[n - 5])
    && t[n - 4] == '.' && IsDigit(t[n - 3]) && IsDigit(t[n - 2]) && IsDigit(t[n - 1])
  }

  /** The hours, then two-digit minutes and seconds and three-digit milliseconds. */
  function CountdownValue(t: string): int
    requires IsCountdownShape(t)
  {
    var n := |t|;
    ClockMillis(DecimalValue(t[..n - 10]), TwoDigits(t[n - 9], t[n - 8]),
                TwoDigits(t[n - 6], t[n - 5]), ThreeDigits(t[n - 3], t[n - 2], t[n - 1]))
  }

  function TwoDigits(a: char, b: char): int
    requires IsDigit(a) && IsDigit(b)
  {
    10 * DigitValue(a) + DigitValue(b)
  }

  function ThreeDigits(a: char, b: char, c: char): int
    requires IsDigit(a) && IsDigit(b) && IsDigit(c)
  {
    100 * DigitValue(a) + 10 * DigitValue(b) + DigitValue(c)
  }

  /** Before the end the countdown is well formed and reads back as the remaining time. */
  lemma CountdownRoundTrip(remaining: int)
    requires remaining >= 0
    ensures ParseCountdown(Countdown(remaining)) == Some(remaining)
  {
    var f := Fields(remaining);
    var hh := NatToDecimal(f.hours);
    var mm := PadLeftZeros(NatToDecimal(f.minutes), 2);
    var ss := PadLeftZeros(NatToDecimal(f.seconds), 2);
    var xs := PadLeftZeros(NatToDecimal(f.millis), 3);
    PaddedDecimalWidth(f.minutes, 2);
    PaddedDecimalWidth(f.seconds, 2);
    PaddedDecimalWidth(f.millis, 3);
    PaddedDecimalValue(f.minutes, 2);
    PaddedDecimalValue(f.seconds, 2);
    PaddedDecimalValue(f.millis, 3);
    DecimalRoundTrip(f.hours);
    SignedNumeral(f.hours);
    SignedNumeral(f.minutes);
    SignedNumeral(f.seconds);
    SignedNumeral(f.millis);
    CountdownOfFields(remaining, hh, mm, ss, xs);
    ParseJoined(hh, mm, ss, xs);
  }

  /** Parsing sees through the four digit groups of a joined countdown. */
  lemma ParseJoined(hh: string, mm: string, ss: string, xs: string)
    requires AllDigits(hh) && AllDigits(mm) && AllDigits(ss) && AllDigits(xs)
    requires |hh| >= 1 && |mm| == 2 && |ss| == 2 && |xs| == 3
    ensures ParseCountdown(hh + ":" + mm + ":" + ss + "." + xs)
            == Some(ClockMillis(DecimalValue(hh), DecimalValue(mm), DecimalValue(ss), DecimalValue(xs)))
  {
    var t := hh + ":" + mm + ":" + ss + "." + xs;
    var n := |t|;
    assert n == |hh| + 10;
    assert t[..n - 10] == hh;
    assert t[n - 10] == ':' && t[n - 9] == mm[0] && t[n - 8] == mm[1];
    assert t[n - 7] == ':' && t[n - 6] == ss[0] && t[n - 5] == ss[1];
    assert t[n - 4] == '.' && t[n - 3] == xs[0] && t[n - 2] == xs[1] && t[n - 1] == xs[2];
    GroupsOfShape(t, hh, mm, ss, xs);
  }

  /** A string laid out as the four groups and their separators has the countdown shape
      and the groups' value. */
  lemma GroupsOfShape(t: string, hh: string, mm: string, ss: string, xs: string)
    requires AllDigits(hh) && AllDigits(mm) && AllDigits(ss) && AllDigits(xs)
    requires |hh| >= 1 && |mm| == 2 && |ss| == 2 && |xs| == 3
    requires |t| == |hh| + 10 && t[..|t| - 10] == hh
    requires t[|t| - 10] == ':' && t[|t| - 9] == mm[0] && t[|t| - 8] == mm[1]
    requires t[|t| - 7] == ':' && t[|t| - 6] == ss[0] && t[|t| - 5] == ss[1]
    requires t[|t| - 4] == '.' && t[|t| - 3] == xs[0] && t[|t| - 2] == xs[1] && t[|t| - 1] == xs[2]
    ensures IsCountdownShape(t)
    ensures CountdownValue(t)
            == ClockMillis(DecimalValue(hh), DecimalValue(mm), DecimalValue(ss), DecimalValue(xs))
  {
    var n := |t|;
    assert IsCountdownShape(t);
    TwoDigitGroup(mm, t[n - 9], t[n - 8]);
    TwoDigitGroup(ss, t[n - 6], t[n - 5]);
    ThreeDigitGroup(xs, t[n - 3], t[n - 2], t[n - 1]);
    ValueOfGroups(t, hh, DecimalValue(mm), DecimalValue(ss), DecimalValue(xs));
  }

  lemma TwoDigitGroup(g: string, a: char, b: char)
    requires AllDigits(g) && |g| == 2 && g[0] == a && g[1] == b
    ensures IsDigit(a) && IsDigit(b) && TwoDigits(a, b) == DecimalValue(g)
  {
    DecimalValueTwo(g);
  }

  lemma ThreeDigitGroup(g: string, a: char, b: char, c: char)
    requires AllDigits(g) && |g| == 3 && g[0] == a && g[1] == b && g[2] == c
    ensures IsDigit(a) && IsDigit(b) && IsDigit(c) && ThreeDigits(a, b, c) == DecimalValue(g)
  {
    DecimalValueThree(g);
  }

  lemma ValueOfGroups(t: string, hh: string, m: int, s: int, x: int)
    requires IsCountdownShape(t) && t[..|t| - 10] == hh
    requires TwoDigits(t[|t| - 9], t[|t| - 8]) == m
    requires TwoDigits(t[|t| - 6], t[|t| - 5]) == s
    requires ThreeDigits(t[|t| - 3], t[|t| - 2], t[|t| - 1]) == x
    ensures CountdownValue(t) == ClockMillis(DecimalValue(hh), m, s, x)
  {
  }

  /** At the end instant the countdown reads zero. */
  lemma CountdownAtEnd(now: DateTime)
    requires ValidDateTime(now) && ToMillis(now) == ToMillis(End())
    ensures ViewAt(now).countdown == "0:00:00.000"
  {
    ZeroCountdown(Delta(End(), now));
  }

  lemma ZeroCountdown(r: int)
    requires r == 0
    ensures Countdown(r) == "0:00:00.000"
  {
    assert "0" + ":" + "00" + ":" + "00" + "." + "000" == "0:00:00.000";
    SubSecondFields(r);
    SmallNumerals();
    CountdownOfFields(r, "0", "00", "00", "000");
  }

  /** Five milliseconds past the end: the fill is not sign-aware, "-5" becomes "0-5". */
  lemma CountdownJustPastEnd(now: DateTime)
    requires ValidDateTime(now) && ToMillis(now) == ToMillis(End()) + 5
    ensures ViewAt(now).countdown == "0:00:00.0-5"
  {
    MinusFiveCountdown(Delta(End(), now));
  }

  lemma MinusFiveCountdown(r: int)
    requires r == -5
    ensures Countdown(r) == "0:00:00.0-5"
  {
    assert "0" + ":" + "00" + ":" + "00" + "." + "0-5" == "0:00:00.0-5";
    SubSecondFields(r);
    SmallNumerals();
    CountdownOfFields(r, "0", "00", "00", "0-5");
  }

  /** Half an hour past the end: no sign on the hours, the minutes carry it. */
  lemma CountdownHalfHourPastEnd(now: DateTime)
    requires ValidDateTime(now) && ToMillis(now) == ToMillis(End()) + 1_800_000
    ensures ViewAt(now).countdown == "0:-30:00.000"
  {
    MinusHalfHourCountdown(Delta(End(), now));
  }

  lemma MinusHalfHourCountdown(r: int)
    requires r == -1_800_000
    ensures Countdown(r) == "0:-30:00.000"
  {
    MinusHalfHourFields(r);
    SmallNumerals();
    CountdownOfFields(r, "0", "-30", "00", "000");
    HalfHourText();
  }

  lemma HalfHourText()
    ensures "0" + ":" + "-30" + ":" + "00" + "." + "000" == "0:-30:00.000"
  {
  }

  /** The fields of the three remaining times the examples above use. */
  /** Less than a second either side of zero: only the milliseconds are non-zero. */
  lemma SubSecondFields(r: int)
    requires -1000 < r < 1000
    ensures var f := Fields(r); f.hours == 0 && f.minutes == 0 && f.seconds == 0 && f.millis == r
  {
    TDivSmall(r, 1000);
    SecondsZeroFields(r);
  }

  lemma SecondsZeroFields(r: int)
    requires WholeSeconds(r) == 0
    ensures var f := Fields(r); f.hours == 0 && f.minutes == 0 && f.seconds == 0
  {
    TDivSmall(0, 60);
    TDivSmall(0, 3600);
  }

  lemma MinusHalfHourFields(r: int)
    requires r == -1_800_000
    ensures var f := Fields(r); f.hours == 0 && f.minutes == -30 && f.seconds == 0 && f.millis == 0
  {
    assert WholeSeconds(r) == -1800;
    assert WholeMinutes(r) == -30;
    assert WholeHours(r) == 0;
  }

  /** The countdown text from the texts of its four fields. */
  lemma CountdownOfFields(r: int, h: string, m: string, s: string, x: string)
    requires var f := Fields(r);
             (IntToDecimal(f.hours) == h && PadLeftZeros(IntToDecimal(f.minutes), 2) == m
              && PadLeftZeros(IntToDecimal(f.seconds), 2) == s && PadLeftZeros(IntToDecimal(f.millis), 3) == x)
    ensures Countdown(r) == h + ":" + m + ":" + s + "." + x
  {
  }

  /** The numerals and fills the examples above need. */
  lemma SmallNumerals()
    ensures IntToDecimal(0) == "0" && IntToDecimal(-5) == "-5" && IntToDecimal(-30) == "-30"
    ensures PadLeftZeros("0", 2) == "00" && PadLeftZeros("0", 3) == "000"
    ensures PadLeftZeros("-5", 3) == "0-5" && PadLeftZeros("-30", 2) == "-30"
  {
    assert DigitChar(0) == '0' && DigitChar(3) == '3' && DigitChar(5) == '5';
    assert NatToDecimal(0) == "0";
    assert NatToDecimal(3) == "3";
    assert NatToDecimal(5) == "5";
    assert NatToDecimal(30) == NatToDecimal(3) + [DigitChar(0)];
    SignedNumeral(0);
    SignedNumeral(5);
    SignedNumeral(30);
    assert Zeros(1) == "0";
    assert Zeros(2) == Zeros(1) + "0";
  }

  /** A natural number prints as its plain numeral, its negation as a minus sign and that numeral. */
  lemma SignedNumeral(n: nat)
    ensures IntToDecimal(n) == NatToDecimal(n)
    ensures n > 0 ==> IntToDecimal(-(n as int)) == "-" + NatToDecimal(n)
  {
  }

  // ---------------------------------------------------------------------------
  // The day heading

  /** The ordinal suffix, chosen by the last digit alone. */
  function DaySuffix(day: nat): (s: string)
    ensures day % 10 == 1 <==> s == "st"
    ensures day % 10 == 2 <==> s == "nd"
    ensures day % 10 == 3 <==> s == "rd"
    ensures day % 10 !in {1, 2, 3} <==> s == "th"
  {
    var r := day % 10;
    if r == 0 || r == 4 || r == 5 || r == 6 || r == 7 || r == 8 || r == 9 then "th"
    else if r == 1 then "st"
    else if r == 2 then "nd"
    else if r == 3 then "rd"
    else assert false; "th"
  }

  /** The 11th, 12th and 13th are spelled "11st", "12nd" and "13rd". */
  lemma TeenSuffixes()
    ensures DaySuffix(11) == "st" && DaySuffix(12) == "nd" && DaySuffix(13) == "rd"
  {
  }

  // ---------------------------------------------------------------------------
  // The whole panel

  datatype StatsView = StatsView(
    day: int, suffix: string, month: int, year: int,
    dayIndex: int, totalDays: int, daysLeft: int,
    countdown: string)

  /** What the panel shows at `now`. */
  function ViewAt(now: DateTime): (v: StatsView)
    requires ValidDateTime(now)
    ensures v.day == now.date.day && v.suffix == DaySuffix(now.date.day)
    ensures v.month == now.date.month && v.year == now.date.year
    ensures v.countdown == Countdown(Delta(End(), now))
    ensures v.totalDays == 332
    ensures v.dayIndex == TDiv(ToMillis(now) - ToMillis(Start()), MillisPerDay) + 1
    ensures v.daysLeft == TDiv(Delta(End(), now), MillisPerDay) - 1
  {
    RangeIsOrdered();
    var total := Delta(End(), Start());
    var elapsed := Delta(now, Start());
    var remaining := total - elapsed;
    assert remaining == ToMillis(End()) - ToMillis(now);
    assert total == 332 * MillisPerDay;
    assert remaining == Delta(End(), now);
    StatsView(now.date.day, DaySuffix(now.date.day), now.date.month, now.date.year,
              WholeDays(elapsed) + 1, WholeDays(total), WholeDays(remaining) - 1,
              Countdown(remaining))
  }

  /** Within the range the day index and the days left add up to the total, or to one
      less when the time of day of `now` is earlier than that of the range's ends. */
  lemma {:induction false} DayLineAddsUp(now: DateTime)
    requires ValidDateTime(now)
    requires ToMillis(Start()) <= ToMillis(now) <= ToMillis(End())
    ensures var v := ViewAt(now);
            v.dayIndex + v.daysLeft == v.totalDays || v.dayIndex + v.daysLeft == v.totalDays - 1
  {
    RangeIsOrdered();
    var e := ToMillis(now) - ToMillis(Start());
    var r := ToMillis(End()) - ToMillis(now);
    assert e + r == 332 * MillisPerDay;
    var qe, qr := e / MillisPerDay, r / MillisPerDay;
    assert e == MillisPerDay * qe + e % MillisPerDay;
    assert r == MillisPerDay * qr + r % MillisPerDay;
    assert MillisPerDay * (332 - qe - qr) == e % MillisPerDay + r % MillisPerDay;
    ScaledAtLeastOne(MillisPerDay, 332 - qe - qr);
    ScaledAtLeastOne(MillisPerDay, 332 - qe - qr - 1);
  }

  /** From the start up to the end the day index runs from 1 to 332 and the days left
      from 331 down to -1. */
  lemma DayIndexInRange(now: DateTime)
    requires ValidDateTime(now)
    requires ToMillis(Start()) <= ToMillis(now) < ToMillis(End())
    ensures var v := ViewAt(now);
            1 <= v.dayIndex <= v.totalDays && -1 <= v.daysLeft < v.totalDays
  {
    RangeIsOrdered();
  }

  /** The panel's component: it keeps the instant it last read from the clock. */
  class Stats {
    var now: DateTime

    predicate Valid()
      reads this
    {
      ValidDateTime(now)
    }

    /** `create`: reads the clock once. */
    constructor(clock: DateTime)
      requires ValidDateTime(clock)
      ensures Valid() && now == clock
    {
      now := clock;
    }

    /** `update`: every tick reads the clock again and asks for a redraw. */
    method Update(clock: DateTime) returns (redraw: bool)
      requires ValidDateTime(clock)
      modifies this
      ensures Valid() && now == clock && redraw
    {
      now := clock;
      redraw := true;
    }

    /** `view`: the panel at the stored instant. */
    function View(): (v: StatsView)
      requires Valid()
      reads this
      ensures v == ViewAt(now)
    {
      ViewAt(now)
    }
  }
}
