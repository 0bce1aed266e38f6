/**
 * Numbers as the .NET runtime reads and writes them: 32-bit `int` values,
 * `Convert.ToInt32(s, 16)`, the `x4`/`x8` hexadecimal format specifiers and
 * invariant-culture decimal rendering.
 */
module Numerals {
  import opened Wrappers

  const TwoTo24: int := 0x100_0000
  const TwoTo31: int := 0x8000_0000
  const TwoTo32: int := 0x1_0000_0000

  /** C#'s `int`. */
  newtype int32 = x: int | -0x8000_0000 <= x < 0x8000_0000

  /** The bit pattern of `v` read as an unsigned 32-bit number. */
  function Unsigned32(v: int32): (u: nat)
    ensures u < TwoTo32
    ensures v >= 0 ==> u == v as int
    ensures v < 0 ==> u == v as int + TwoTo32
  {
    (v as int) % TwoTo32
  }

  /** The `int` whose bit pattern is the unsigned 32-bit number `u`. */
  function Signed32(u: nat): (v: int32)
    requires u < TwoTo32
    ensures Unsigned32(v) == u
  {
    if u < TwoTo31 then u as int32 else (u - TwoTo32) as int32
  }

  lemma SignedOfUnsigned(v: int32)
    ensures Signed32(Unsigned32(v)) == v
  {
  }

  // ---------------------------------------------------------------- hex

  /** The character class `[A-Fa-f0-9]`. */
  predicate IsHexDigit(c: char) {
    ('0' <= c <= '9') || ('a' <= c <= 'f') || ('A' <= c <= 'F')
  }

  predicate AllHex(s: string) {
    forall i :: 0 <= i < |s| ==> IsHexDigit(s[i])
  }

  function DigitValue(c: char): (d: nat)
    requires IsHexDigit(c)
    ensures d < 16
  {
    if '0' <= c <= '9' then c as int - '0' as int
    else if 'a' <= c <= 'f' then c as int - 'a' as int + 10
    else c as int - 'A' as int + 10
  }

  lemma AllHexSplit(s: string, k: nat)
    requires AllHex(s) && k <= |s|
    ensures AllHex(s[..k]) && AllHex(s[k..]) && s == s[..k] + s[k..]
  {
    assert forall i :: 0 <= i < k ==> s[..k][i] == s[i];
    assert forall i :: 0 <= i < |s| - k ==> s[k..][i] == s[k + i];
  }

  /** The number a string of hexadecimal digits denotes, most significant digit first. */
  function HexValue(s: string): nat
    requires AllHex(s)
  {
    if |s| == 0 then 0 else HexValue(s[..|s| - 1]) * 16 + DigitValue(s[|s| - 1])
  }

  function Pow16(k: nat): (p: nat)
    ensures p >= 1
  {
    if k == 0 then 1 else 16 * Pow16(k - 1)
  }

  lemma {:induction false} HexValueBound(s: string)
    requires AllHex(s)
    ensures HexValue(s) < Pow16(|s|)
  {
    if |s| > 0 {
      HexValueBound(s[..|s| - 1]);
    }
  }

  /** Reading `a + b` is reading `a`, shifted by the digits of `b`, plus reading `b`. */
  lemma {:induction false} HexValueConcat(a: string, b: string)
    requires AllHex(a) && AllHex(b)
    ensures AllHex(a + b)
    ensures HexValue(a + b) == HexValue(a) * Pow16(|b|) + HexValue(b)
  {
    assert AllHex(a + b) by {
      forall i | 0 <= i < |a + b| ensures IsHexDigit((a + b)[i]) {
        if i < |a| { assert (a + b)[i] == a[i]; } else { assert (a + b)[i] == b[i - |a|]; }
      }
    }
    if |b| == 0 {
      assert a + b == a;
    } else {
      var b' := b[..|b| - 1];
      var c := b[|b| - 1];
      assert (a + b)[..|a + b| - 1] == a + b';
      assert (a + b)[|a + b| - 1] == c;
      HexValueConcat(a, b');
      var x, p, y, d := HexValue(a), Pow16(|b'|), HexValue(b'), DigitValue(c);
      assert HexValue(a + b) == HexValue(a + b') * 16 + d;
      assert HexValue(b) == y * 16 + d;
      assert Pow16(|b|) == p * 16;
      ShiftDigit(x, p, y, d);
    }
  }

  lemma ShiftDigit(x: int, p: int, y: int, d: int)
    ensures (x * p + y) * 16 + d == x * (p * 16) + (y * 16 + d)
  {
  }

  lemma {:induction false} Pow16Monotonic(j: nat, k: nat)
    requires j <= k
    ensures Pow16(j) <= Pow16(k)
  {
    if j < k {
      Pow16Monotonic(j, k - 1);
    }
  }

  /** At most eight hexadecimal digits always fit in 32 bits. */
  lemma EightDigitsFit(s: string)
    requires AllHex(s) && |s| <= 8
    ensures HexValue(s) < TwoTo32
  {
    HexValueBound(s);
    Pow16Monotonic(|s|, 8);
    assert Pow16(8) == TwoTo32;
  }

  /** The digits the `x` format specifier writes: `0`-`9` and `a`-`f`. */
  predicate IsLowerHexDigit(c: char) {
    ('0' <= c <= '9') || ('a' <= c <= 'f')
  }

  predicate AllLowerHex(s: string) {
    forall i :: 0 <= i < |s| ==> IsLowerHexDigit(s[i])
  }

  function Zeros(n: nat): (z: string)
    ensures |z| == n && AllHex(z) && HexValue(z) == 0
    ensures forall i :: 0 <= i < n ==> z[i] == '0'
  {
    if n == 0 then "" else Zeros(n - 1) + "0"
  }

  /** Lower-case hexadecimal digit for `d`. */
  function HexDigitChar(d: nat): (c: char)
    requires d < 16
    ensures IsHexDigit(c) && IsLowerHexDigit(c) && DigitValue(c) == d
    ensures c == '0' <==> d == 0
  {
    if d < 10 then ('0' as int + d) as char else ('a' as int + d - 10) as char
  }

  /** The shortest lower-case hexadecimal spelling of `n` ("0" for zero). */
  function LowerHex(n: nat): (s: string)
    ensures 1 <= |s|
    ensures AllLowerHex(s)
    ensures n < 16 <==> |s| == 1
    ensures n > 0 ==> s[0] != '0'
  {
    if n < 16 then [HexDigitChar(n)] else LowerHex(n / 16) + [HexDigitChar(n % 16)]
  }

  lemma {:induction false} LowerHexValue(n: nat)
    ensures AllHex(LowerHex(n)) && HexValue(LowerHex(n)) == n
  {
    if n >= 16 {
      LowerHexValue(n / 16);
      var s := LowerHex(n);
      assert s[..|s| - 1] == LowerHex(n / 16);
    }
  }

  lemma {:induction false} LowerHexLength(n: nat, k: nat)
    requires 1 <= k && n < Pow16(k)
    ensures |LowerHex(n)| <= k
  {
    if n >= 16 {
      assert Pow16(1) == 16;
      LowerHexLength(n / 16, k - 1);
    }
  }

  /** `digits` with zeros in front, up to `width` characters. */
  function PadWithZeros(digits: string, width: nat): (s: string)
    requires AllHex(digits) && AllLowerHex(digits)
    ensures AllHex(s) && AllLowerHex(s) && HexValue(s) == HexValue(digits)
    ensures |s| == if |digits| >= width then |digits| else width
    ensures |digits| >= width ==> s == digits
  {
    if |digits| >= width then digits
    else
      var zeros := Zeros(width - |digits|);
      HexValueConcat(zeros, digits);
      zeros + digits
  }

  /**
   * `v.ToString("x" + width)` for an `int`: the two's-complement bit pattern
   * in lower-case hexadecimal, zero-padded to at least `width` digits.
   */
  function FormatHex(v: int32, width: nat): (s: string)
    ensures AllHex(s) && HexValue(s) == Unsigned32(v)
    ensures width <= |s| && 1 <= |s|
    ensures width <= 8 ==> |s| <= 8
    ensures width == 8 ==> |s| == 8
    ensures AllLowerHex(s)
    ensures |s| > width && |s| > 1 ==> s[0] != '0'
  {
    var digits := LowerHex(Unsigned32(v));
    LowerHexValue(Unsigned32(v));
    assert Pow16(8) == TwoTo32;
    LowerHexLength(Unsigned32(v), 8);
    PadWithZeros(digits, width)
  }

  /**
   * `Convert.ToInt32(s, 16)` on a string of hexadecimal digits: an empty
   * string throws, a value beyond 32 bits throws (overflow), and otherwise
   * the 32-bit pattern is read as a signed `int`.
   */
  function ParseHexInt32(s: string): (r: Outcome<int32>)
    requires AllHex(s)
    ensures r.Returned? <==> 0 < |s| && HexValue(s) < TwoTo32
    ensures r.Returned? ==> Unsigned32(r.value) == HexValue(s)
  {
    if |s| == 0 || HexValue(s) >= TwoTo32 then Threw else Returned(Signed32(HexValue(s)))
  }

  /** Writing an `int` in hexadecimal and converting it back recovers it. */
  lemma HexRoundTrip(v: int32, width: nat)
    ensures ParseHexInt32(FormatHex(v, width)) == Returned(v)
  {
    SignedOfUnsigned(v);
  }

  // ---------------------------------------------------------------- decimal

  predicate IsDecimalDigit(c: char) {
    '0' <= c <= '9'
  }

  predicate DecimalDigitsOf(s: string) {
    forall i :: 0 <= i < |s| ==> IsDecimalDigit(s[i])
  }

  function DecimalDigits(n: nat): (s: string)
    ensures 1 <= |s|
    ensures DecimalDigitsOf(s)
  {
    var d := [('0' as int + n % 10) as char];
    if n < 10 then d else DecimalDigits(n / 10) + d
  }

  /** The number a string of decimal digits denotes. */
  function DecimalValue(s: string): nat
    requires DecimalDigitsOf(s)
  {
    if |s| == 0 then 0
    else
      assert IsDecimalDigit(s[|s| - 1]);
      DecimalValue(s[..|s| - 1]) * 10 + (s[|s| - 1] as int - '0' as int)
  }

  /**
   * `v.ToString()` for an `int`, written with `-` as the negative sign (the
   * invariant culture's; the current culture may use another sign).
   */
  function FormatDecimal(v: int32): string {
    if v < 0 then "-" + DecimalDigits(-(v as int)) else DecimalDigits(v as int)
  }

  /** Reading back what `FormatDecimal` writes: an optional minus sign and the digits of the magnitude. */
  lemma FormatDecimalReadsBack(v: int32)
    ensures v >= 0 ==> DecimalDigitsOf(FormatDecimal(v)) && DecimalValue(FormatDecimal(v)) == v as int
    ensures v < 0 ==> (
      && FormatDecimal(v)[0] == '-'
      && DecimalDigitsOf(FormatDecimal(v)[1..])
      && DecimalValue(FormatDecimal(v)[1..]) == -(v as int))
  {
    DecimalRoundTrip(if v < 0 then -(v as int) else v as int);
    if v < 0 {
      assert FormatDecimal(v)[1..] == DecimalDigits(-(v as int));
    }
  }

  lemma {:induction false} DecimalRoundTrip(n: nat)
    ensures DecimalValue(DecimalDigits(n)) == n
  {
    if n >= 10 {
      DecimalRoundTrip(n / 10);
      var s := DecimalDigits(n);
      assert s[..|s| - 1] == DecimalDigits(n / 10);
    }
  }

  /**
   * A run of decimal digits ends where a non-digit begins, so two such runs
   * each followed by a non-digit are told apart where they stop.
   */
  lemma DigitsBeforeSeparator(x: string, y: string, r1: string, r2: string)
    requires DecimalDigitsOf(x) && DecimalDigitsOf(y)
    requires |r1| > 0 && !IsDecimalDigit(r1[0]) && |r2| > 0 && !IsDecimalDigit(r2[0])
    requires x + r1 == y + r2
    ensures x == y && r1 == r2
  {
    var i := if |x| < |y| then |x| else |y|;
    assert IsDecimalDigit((x + r1)[i]) <==> i < |x|;
    assert IsDecimalDigit((y + r2)[i]) <==> i < |y|;
    assert x == (x + r1)[..|x|] && y == (y + r2)[..|y|];
    assert r1 == (x + r1)[|x|..] && r2 == (y + r2)[|y|..];
  }

  /** Different non-negative numbers are written differently. */
  lemma FormatDecimalInjective(v: int32, w: int32)
    requires v >= 0 && w >= 0 && FormatDecimal(v) == FormatDecimal(w)
    ensures v == w
  {
    FormatDecimalReadsBack(v);
    FormatDecimalReadsBack(w);
  }
}
