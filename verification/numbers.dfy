/**
 * Numbers as the menu code reads and writes them: Rust's `i32` (`parse::<i32>`
 * and `{}`), and refresh rates. The Rust code keeps refresh rates in `f32`;
 * here they are fixed-point integers counting thousandths of a hertz, parsed
 * from decimal text and printed with exactly two decimals like `{:.2}`.
 */
module Numbers {
  import opened Wrappers
  import opened Text

  const I32_MIN: int := -0x8000_0000
  const I32_MAX: int := 0x7fff_ffff

  /** Rust's `i32`. */
  type Int32 = x: int | -0x8000_0000 <= x <= 0x7fff_ffff

  /** A refresh rate in millihertz: 59.94 Hz is 59940. */
  type MilliHz = int

  predicate IsDigit(c: char) {
    '0' <= c <= '9'
  }

  predicate IsDigits(s: string) {
    forall i :: 0 <= i < |s| ==> IsDigit(s[i])
  }

  function DigitValue(c: char): (d: nat)
    requires IsDigit(c)
    ensures d < 10
  {
    (c as int) - ('0' as int)
  }

  function DigitChar(d: nat): (c: char)
    requires d < 10
    ensures IsDigit(c) && DigitValue(c) == d
  {
    ('0' as int + d) as char
  }

  /** The value of a string of decimal digits (the empty string is 0). */
  function DigitsValue(s: string): nat
    requires IsDigits(s)
    decreases |s|
  {
    if s == [] then 0 else DigitsValue(s[..|s| - 1]) * 10 + DigitValue(s[|s| - 1])
  }

  /** The shortest decimal digits of `n`. */
  function DigitsText(n: nat): (r: string)
    ensures r != [] && IsDigits(r)
    ensures forall c :: c in r ==> IsDigit(c)
  {
    if n < 10 then [DigitChar(n)] else DigitsText(n / 10) + [DigitChar(n % 10)]
  }

  lemma {:induction false} DigitsRoundTrip(n: nat)
    ensures DigitsValue(DigitsText(n)) == n
  {
    if n >= 10 {
      var r := DigitsText(n);
      assert r[..|r| - 1] == DigitsText(n / 10);
      DigitsRoundTrip(n / 10);
    }
  }

  /** The digits of `n` start with `0` only for zero itself, which is the single digit `0`. */
  lemma {:induction false} DigitsNoLeadingZero(n: nat)
    ensures DigitsText(n)[0] == '0' <==> n == 0
    ensures n == 0 ==> DigitsText(n) == "0"
  {
    if n >= 10 {
      DigitsNoLeadingZero(n / 10);
      assert DigitsText(n)[0] == DigitsText(n / 10)[0];
    } else {
      assert DigitValue(DigitsText(n)[0]) == n;
    }
  }

  /** Rust's `{}` for an integer: a minus sign when negative, then the digits. */
  function IntText(n: int): (r: string)
    ensures r != []
    ensures forall c :: c in r ==> IsDigit(c) || c == '-'
    ensures IsDigit(r[|r| - 1])
  {
    if n < 0 then "-" + DigitsText(-n) else DigitsText(n)
  }

  /**
   * `{}` spells an integer in the one canonical way: a `-` exactly when it
   * is negative, then digits with no leading `0` (zero is the single `0`).
   */
  lemma IntTextSpelling(n: int)
    ensures var r := IntText(n);
      var digits := if n < 0 then r[1..] else r;
      && (r[0] == '-' <==> n < 0)
      && digits != [] && IsDigits(digits)
      && (digits[0] == '0' <==> n == 0)
      && (n == 0 ==> r == "0")
  {
    var r := IntText(n);
    if n < 0 {
      var d := DigitsText(-n);
      assert r == "-" + d && r[1..] == d;
      DigitsNoLeadingZero(-n);
    } else {
      var d := DigitsText(n);
      assert r == d && IsDigit(d[0]);
      DigitsNoLeadingZero(n);
    }
  }

  /**
   * Rust's `parse::<i32>()`: an optional `+` or `-`, then at least one
   * decimal digit, and a value inside the `i32` range.
   */
  function ParseI32(s: string): (r: Option<Int32>)
    ensures r.Some? ==> s != [] && IsDigits(s[1..])
    ensures r.Some? ==> IsDigit(s[0]) || s[0] == '+' || s[0] == '-'
    ensures r.Some? && s[0] == '-' ==> r.value <= 0
  {
    if s == [] then None
    else
      var digits := if s[0] == '+' || s[0] == '-' then s[1..] else s;
      if digits == [] || !IsDigits(digits) then None
      else
        var v: int := if s[0] == '-' then -(DigitsValue(digits) as int) else DigitsValue(digits);
        if I32_MIN <= v <= I32_MAX then Some(v) else None
  }

  /** Every `i32` printed with `{}` parses back to itself. */
  lemma IntRoundTrip(n: Int32)
    ensures ParseI32(IntText(n)) == Some(n)
  {
    var s := IntText(n);
    if n < 0 {
      var d := DigitsText(-(n as int));
      assert s == "-" + d;
      assert s[0] == '-' && s[1..] == d;
      DigitsRoundTrip(-(n as int));
    } else {
      var d := DigitsText(n);
      assert s == d && IsDigit(d[0]);
      DigitsRoundTrip(n);
    }
  }

  /**
   * The fractional digits of a decimal in thousandths: the first three
   * digits, rounded up when the fourth is 5 or more.
   */
  function FracMilli(f: string): (r: nat)
    requires IsDigits(f)
    ensures r <= 1000
  {
    var d1 := if |f| > 0 then DigitValue(f[0]) else 0;
    var d2 := if |f| > 1 then DigitValue(f[1]) else 0;
    var d3 := if |f| > 2 then DigitValue(f[2]) else 0;
    var up := if |f| > 3 && DigitValue(f[3]) >= 5 then 1 else 0;
    d1 * 100 + d2 * 10 + d3 + up
  }

  /** Unsigned decimal text `digits[.digits]` with at least one digit, in millihertz. */
  function ParseUnsignedDecimal(s: string): (r: Option<nat>)
    ensures r.Some? ==> s != []
  {
    var parts := Split(s, ".");
    if |parts| == 1 then
      if s != [] && IsDigits(s) then Some(DigitsValue(s) * 1000) else None
    else if |parts| == 2 then
      var whole, frac := parts[0], parts[1];
      if IsDigits(whole) && IsDigits(frac) && |whole| + |frac| > 0
      then Some(DigitsValue(whole) * 1000 + FracMilli(frac))
      else None
    else None
  }

  /** The refresh-rate reading of Rust's `parse::<f32>()`: an optional sign, then a decimal. */
  function ParseRefresh(s: string): (r: Option<MilliHz>)
    ensures r.Some? ==> s != []
    ensures r.Some? && s[0] == '-' ==> r.value <= 0
    ensures r.Some? && s[0] != '-' ==> r.value >= 0
  {
    if s != [] && (s[0] == '+' || s[0] == '-') then
      match ParseUnsignedDecimal(s[1..])
      case None => None
      case Some(v) => Some(if s[0] == '-' then -(v as int) else v)
    else
      match ParseUnsignedDecimal(s)
      case None => None
      case Some(v) => Some(v)
  }

  /** A magnitude in millihertz rounded to whole hundredths, halves rounded up. */
  function Hundredths(m: nat): nat {
    (m + 5) / 10
  }

  /** The value that `{:.2}` shows for `m`: `m` rounded to hundredths, halves away from zero. */
  function Round2(m: MilliHz): (r: MilliHz)
    ensures r % 10 == 0
    ensures m - 5 <= r <= m + 5
    ensures m >= 0 ==> r >= m - 4
    ensures m <= 0 ==> r <= m + 4
  {
    if m < 0 then -(Hundredths(-m) as int) * 10 else Hundredths(m) * 10
  }

  /** A count of hundredths as `whole.ff`. */
  function CentiText(c: nat): (r: string)
    ensures r != [] && IsDigit(r[|r| - 1])
    ensures forall ch :: ch in r ==> IsDigit(ch) || ch == '.'
  {
    var frac := c % 100;
    DigitsText(c / 100) + "." + [DigitChar(frac / 10), DigitChar(frac % 10)]
  }

  /** `{:.2}`: the sign of `m`, then `m` rounded to two decimals. */
  function Render2(m: MilliHz): (r: string)
    ensures r != [] && IsDigit(r[|r| - 1])
    ensures forall c :: c in r ==> IsDigit(c) || c == '-' || c == '.'
  {
    if m < 0 then "-" + CentiText(Hundredths(-m)) else CentiText(Hundredths(m))
  }

  /**
   * `{:.2}` spells a rate as: a `-` exactly when it is negative, whole digits
   * with no leading `0` (zero is the single `0`), a `.`, and exactly two
   * decimal digits.
   */
  lemma Render2Spelling(m: MilliHz)
    ensures var r := Render2(m);
      var whole := r[if m < 0 then 1 else 0..|r| - 3];
      && |r| >= 4 && (r[0] == '-' <==> m < 0)
      && r[|r| - 3] == '.' && IsDigits(r[|r| - 2..])
      && whole != [] && IsDigits(whole)
      && (whole[0] == '0' ==> whole == "0")
  {
    var r := Render2(m);
    var c := if m < 0 then Hundredths(-m) else Hundredths(m);
    var w := DigitsText(c / 100);
    var frac := c % 100;
    var fd := [DigitChar(frac / 10), DigitChar(frac % 10)];
    var t := CentiText(c);
    assert t == w + "." + fd;
    DigitsNoLeadingZero(c / 100);
    assert t[|t| - 3] == '.' && t[|t| - 2..] == fd && t[..|t| - 3] == w;
    if m < 0 {
      assert r == "-" + t;
      assert r[1..|r| - 3] == w;
    } else {
      assert r == t && r[0] == w[0];
    }
  }

  lemma CentiRoundTrip(c: nat)
    ensures ParseUnsignedDecimal(CentiText(c)) == Some(c * 10)
  {
    var whole := DigitsText(c / 100);
    var frac := c % 100;
    var fd := [DigitChar(frac / 10), DigitChar(frac % 10)];
    assert CentiText(c) == whole + "." + fd;
    MissingChar(fd, ".", 0);
    SplitAround(whole, ".", fd);
    DigitsRoundTrip(c / 100);
    assert FracMilli(fd) == frac * 10;
  }

  /**
   * What `{:.2}` prints parses back to the printed value: `m` within half a
   * hundredth of a hertz.
   */
  lemma RefreshRoundTrip(m: MilliHz)
    ensures ParseRefresh(Render2(m)) == Some(Round2(m))
  {
    if m < 0 {
      CentiRoundTrip(Hundredths(-m));
      assert Render2(m)[1..] == CentiText(Hundredths(-m));
    } else {
      CentiRoundTrip(Hundredths(m));
      assert CentiText(Hundredths(m))[0] != '-' && CentiText(Hundredths(m))[0] != '+' by {
        assert CentiText(Hundredths(m))[0] in CentiText(Hundredths(m));
      }
    }
  }

  /** A rate that is a whole number of hundredths is printed exactly. */
  lemma Round2Exact(m: MilliHz)
    requires m % 10 == 0
    ensures Round2(m) == m
  {
  }
}
