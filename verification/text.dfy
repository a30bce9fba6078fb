/** The few pieces of Rust's `format!` that the program uses on integers: the
    decimal rendering of `{}`, the zero fill of `{:0>w}` and the upper-case hex of
    `{:02X}`, each with a reader that inverts it. */
module Text {
  import opened Numeric
  import opened Wrappers

  predicate IsDigit(c: char) {
    '0' <= c <= '9'
  }

  predicate AllDigits(s: string) {
    forall i :: 0 <= i < |s| ==> IsDigit(s[i])
  }

  function DigitValue(c: char): (v: int)
    requires IsDigit(c)
    ensures 0 <= v < 10
  {
    c as int - '0' as int
  }

  function DigitChar(v: int): (c: char)
    requires 0 <= v < 10
    ensures IsDigit(c) && DigitValue(c) == v
  {
    "0123456789"[v]
  }

  function Pow10(k: nat): (p: nat)
    ensures p >= 1
  {
    if k == 0 then 1 else 10 * Pow10(k - 1)
  }

  /** Decimal numeral of n without leading zeros ("0" for zero). */
  function NatToDecimal(n: nat): (s: string)
    ensures 1 <= |s| && AllDigits(s)
  {
    if n < 10 then [DigitChar(n)] else NatToDecimal(n / 10) + [DigitChar(n % 10)]
  }

  /** The value of a string of decimal digits, most significant first (0 for ""). */
  function DecimalValue(s: string): nat
    requires AllDigits(s)
  {
    if s == [] then 0 else 10 * DecimalValue(s[..|s| - 1]) + DigitValue(s[|s| - 1])
  }

  /** What Rust's `{}` prints for a signed integer: a '-' exactly when the number is
      negative, then the digits of its magnitude. */
  function IntToDecimal(i: int): (s: string)
    ensures (|s| > 0 && s[0] == '-') <==> i < 0
    ensures var digits := if i < 0 then s[1..] else s;
            1 <= |digits| && AllDigits(digits) && DecimalValue(digits) == (if i < 0 then -i else i)
  {
    DecimalRoundTrip(if i < 0 then -i else i);
    if i < 0 then "-" + NatToDecimal(-i) else NatToDecimal(i)
  }

  /** Reads an optional '-' followed by decimal digits. */
  function DecimalToInt(s: string): Option<int> {
    if |s| >= 2 && s[0] == '-' && AllDigits(s[1..]) then Some(-(DecimalValue(s[1..]) as int))
    else if |s| >= 1 && AllDigits(s) then Some(DecimalValue(s))
    else None
  }

  function Zeros(n: nat): (s: string)
    ensures |s| == n && forall i :: 0 <= i < n ==> s[i] == '0'
  {
    if n == 0 then "" else Zeros(n - 1) + "0"
  }

  /** Rust's `{:0>w}`: the text right-aligned in a field of width w, filled with
      '0' on the left. The fill knows nothing about a sign: "-5" becomes "0-5" at width 3. */
  function PadLeftZeros(s: string, w: nat): (r: string)
    ensures |r| == Max(|s|, w)
    ensures r[|r| - |s|..] == s
    ensures forall i :: 0 <= i < |r| - |s| ==> r[i] == '0'
  {
    if |s| >= w then s else Zeros(w - |s|) + s
  }

  /** Upper-case hexadecimal digit of a value below 16. */
  function HexDigit(v: int): (c: char)
    requires 0 <= v < 16
    ensures IsUpperHexDigit(c) && HexDigitValue(c) == v
  {
    if v < 10 then ('0' as int + v) as char else ('A' as int + v - 10) as char
  }

  predicate IsUpperHexDigit(c: char) {
    '0' <= c <= '9' || 'A' <= c <= 'F'
  }

  function HexDigitValue(c: char): (v: int)
    requires IsUpperHexDigit(c)
    ensures 0 <= v < 16
  {
    if c <= '9' then c as int - '0' as int else c as int - 'A' as int + 10
  }

  /** Rust's `{:02X}` of a byte: two upper-case hex digits, high nibble first. */
  function HexByte(b: u8): (s: string)
    ensures |s| == 2 && IsUpperHexDigit(s[0]) && IsUpperHexDigit(s[1])
    ensures 16 * HexDigitValue(s[0]) + HexDigitValue(s[1]) == b
  {
    [HexDigit(b / 16), HexDigit(b % 16)]
  }

  // ---------------------------------------------------------------------------
  // Lemmas

  /** Reading back a printed natural number gives the number. */
  lemma {:induction false} DecimalRoundTrip(n: nat)
    ensures DecimalValue(NatToDecimal(n)) == n
  {
    if n >= 10 {
      var s := NatToDecimal(n);
      assert s[..|s| - 1] == NatToDecimal(n / 10);
      DecimalRoundTrip(n / 10);
    }
  }

  /** Reading back a printed integer, negative or not, gives the integer. */
  lemma IntDecimalRoundTrip(i: int)
    ensures DecimalToInt(IntToDecimal(i)) == Some(i)
  {
  }

  /** A number below 10^k prints in at most k digits. */
  lemma {:induction false} DecimalLength(n: nat, k: nat)
    requires 1 <= k && n < Pow10(k)
    ensures |NatToDecimal(n)| <= k
  {
    if n >= 10 {
      DecimalLength(n / 10, k - 1);
    }
  }

  /** Splitting a digit string: the value of a + b shifts a by |b| places. */
  lemma {:induction false} DecimalValueAppend(a: string, b: string)
    requires AllDigits(a) && AllDigits(b)
    ensures AllDigits(a + b)
    ensures DecimalValue(a + b) == DecimalValue(a) * Pow10(|b|) + DecimalValue(b)
  {
    var ab := a + b;
    assert AllDigits(ab);
    if b != [] {
      var init, d := b[..|b| - 1], DigitValue(b[|b| - 1]);
      assert ab[..|ab| - 1] == a + init;
      assert ab[|ab| - 1] == b[|b| - 1];
      DecimalValueAppend(a, init);
      var va, vi, p := DecimalValue(a), DecimalValue(init), Pow10(|init|);
      assert DecimalValue(ab) == 10 * (va * p + vi) + d;
      assert DecimalValue(b) == 10 * vi + d;
      assert Pow10(|b|) == 10 * p;
      ShiftDigit(va, p, vi, d);
    } else {
      assert ab == a;
    }
  }

  lemma ShiftDigit(va: int, p: int, vi: int, d: int)
    ensures 10 * (va * p + vi) + d == va * (10 * p) + (10 * vi + d)
  {
  }

  lemma {:induction false} ZerosValue(n: nat)
    ensures AllDigits(Zeros(n)) && DecimalValue(Zeros(n)) == 0
  {
    if n > 0 {
      assert Zeros(n)[..n - 1] == Zeros(n - 1);
      ZerosValue(n - 1);
    }
  }

  /** Zero fill on the left does not change the value of a natural number's numeral. */
  lemma PaddedDecimalValue(n: nat, w: nat)
    ensures AllDigits(PadLeftZeros(NatToDecimal(n), w))
    ensures DecimalValue(PadLeftZeros(NatToDecimal(n), w)) == n
  {
    var s := NatToDecimal(n);
    DecimalRoundTrip(n);
    if |s| < w {
      var z := Zeros(w - |s|);
      assert PadLeftZeros(s, w) == z + s;
      ZerosValue(w - |s|);
      DecimalValueAppend(z, s);
      assert DecimalValue(z) * Pow10(|s|) == 0 * Pow10(|s|) == 0;
    }
  }

  /** A value below 10^w zero-filled to width w takes exactly w characters. */
  lemma PaddedDecimalWidth(n: nat, w: nat)
    requires 1 <= w && n < Pow10(w)
    ensures |PadLeftZeros(NatToDecimal(n), w)| == w
  {
    DecimalLength(n, w);
  }

  /** The value of a two-digit numeral. */
  lemma DecimalValueTwo(s: string)
    requires AllDigits(s) && |s| == 2
    ensures DecimalValue(s) == 10 * DigitValue(s[0]) + DigitValue(s[1])
  {
    var p := s[..1];
    assert p[..0] == [] && p[0] == s[0];
    assert DecimalValue(p) == DigitValue(s[0]);
    assert s[..|s| - 1] == p;
  }

  /** The value of a three-digit numeral. */
  lemma DecimalValueThree(s: string)
    requires AllDigits(s) && |s| == 3
    ensures DecimalValue(s) == 100 * DigitValue(s[0]) + 10 * DigitValue(s[1]) + DigitValue(s[2])
  {
    var p := s[..2];
    assert p[0] == s[0] && p[1] == s[1];
    DecimalValueTwo(p);
  }
}
