/** The application's fixed range and the colour of the current day (src/main.rs). */
module App {
  import opened Civil
  import opened Numeric
  import opened Text
  import opened Wrappers

  /** Start of the tracked range, 2024-07-16T12:00:00Z. */
  function Start(): (t: DateTime)
    ensures ValidDateTime(t)
  {
    DateTime(Date(2024, 7, 16), 12, 0, 0, 0)
  }

  /** End of the tracked range, 2025-06-13T12:00:00Z. */
  function End(): (t: DateTime)
    ensures ValidDateTime(t)
  {
    DateTime(Date(2025, 6, 13), 12, 0, 0, 0)
  }

  /** The range is non-empty: it spans exactly 332 days. */
  lemma RangeIsOrdered()
    ensures ToMillis(Start()) < ToMillis(End())
    ensures ToMillis(End()) - ToMillis(Start()) == 332 * MillisPerDay
  {
    YearStep(2024);
  }

  const U64Modulus: int := 0x1_0000_0000_0000_0000

  /** The years chrono can represent. */
  predicate ChronoYear(y: int) {
    -262143 <= y <= 262142
  }

  /** `(year as u64) * 10000 + (month as u64) * 100 + (day as u64)` in u64 arithmetic,
      which panics on overflow in a debug build: `None` where it overflows. `as u64`
      reinterprets a negative i32 as 2^64 + year. */
  function DaySeed(d: Date): (r: Option<int>)
    requires ValidDate(d) && ChronoYear(d.year)
    ensures 0 <= d.year ==> r == Some(d.year * 10000 + d.month * 100 + d.day)
    ensures d.year < 0 ==> r == None
  {
    var y := d.year % U64Modulus;
    var scaled := y * 10000;
    if scaled >= U64Modulus then None
    else
      var withMonth := scaled + d.month * 100;
      if withMonth >= U64Modulus then None
      else
        var seed := withMonth + d.day;
        if seed >= U64Modulus then None else Some(seed)
  }

  /** The three bytes a seeded generator draws first, in draw order (red, green, blue).
      The generator itself is a parameter of the model. */
  datatype Rgb = Rgb(red: u8, green: u8, blue: u8)

  /** `#RRGGBB` of the three drawn bytes. */
  function FormatColor(c: Rgb): (s: string)
    ensures |s| == 7 && s[0] == '#'
    ensures forall i :: 1 <= i < 7 ==> IsUpperHexDigit(s[i])
  {
    "#" + HexByte(c.red) + HexByte(c.green) + HexByte(c.blue)
  }

  /** Reads a `#RRGGBB` string back into its three bytes. */
  function ParseColor(s: string): Option<Rgb> {
    if |s| == 7 && s[0] == '#' && forall i :: 1 <= i < 7 ==> IsUpperHexDigit(s[i]) then
      Some(Rgb(16 * HexDigitValue(s[1]) + HexDigitValue(s[2]),
               16 * HexDigitValue(s[3]) + HexDigitValue(s[4]),
               16 * HexDigitValue(s[5]) + HexDigitValue(s[6])))
    else None
  }

  /** The colour of the day of `now`: the generator seeded with the day's seed; `None`
      where computing the seed overflows. */
  function DayColor(now: DateTime, generator: int -> Rgb): (r: Option<string>)
    requires ValidDateTime(now) && ChronoYear(now.date.year)
    ensures r.Some? <==> now.date.year >= 0
    ensures r.Some? ==> ParseColor(r.value) == Some(generator(DaySeed(now.date).value))
  {
    match DaySeed(now.date)
    case None => None
    case Some(seed) =>
      ColorRoundTrip(generator(seed));
      Some(FormatColor(generator(seed)))
  }

  // ---------------------------------------------------------------------------
  // Lemmas

  /** Formatting a colour and reading it back gives the colour. */
  lemma ColorRoundTrip(c: Rgb)
    ensures ParseColor(FormatColor(c)) == Some(c)
  {
    var s := FormatColor(c);
    var r, g, b := HexByte(c.red), HexByte(c.green), HexByte(c.blue);
    assert s == "#" + r + g + b;
    assert s[1] == r[0] && s[2] == r[1];
    assert s[3] == g[0] && s[4] == g[1];
    assert s[5] == b[0] && s[6] == b[1];
  }

  /** Distinct calendar dates of the years 0 and later get distinct seeds. */
  lemma {:induction false} DaySeedInjective(d1: Date, d2: Date)
    requires ValidDate(d1) && ValidDate(d2) && ChronoYear(d1.year) && ChronoYear(d2.year)
    requires 0 <= d1.year && 0 <= d2.year
    requires DaySeed(d1) == DaySeed(d2)
    ensures d1 == d2
  {
    var s := DaySeed(d1).value;
    DivUnique(s, 10000, d1.year, d1.month * 100 + d1.day);
    DivUnique(s, 10000, d2.year, d2.month * 100 + d2.day);
    var rest := s - 10000 * d1.year;
    DivUnique(rest, 100, d1.month, d1.day);
    DivUnique(rest, 100, d2.month, d2.day);
  }

  /** The colour depends on the calendar date only, not on the time of day. */
  lemma DayColorIgnoresTimeOfDay(t1: DateTime, t2: DateTime, generator: int -> Rgb)
    requires ValidDateTime(t1) && ValidDateTime(t2) && ChronoYear(t1.date.year)
    requires t1.date == t2.date
    ensures DayColor(t1, generator) == DayColor(t2, generator)
  {
  }
}
