/**
  Numbers as the modelled code reads and writes them: a recogniser for plain decimal
  literals (the subset of Python's `float()` grammar that the time parser relies on),
  decimal rendering of naturals (for the `ISSUE-<n>` placeholder key), and rounding to
  a number of decimal places, half to even, as pandas' `.round(n)` and Python's `round(x, n)`
  do. Floating point is modelled by exact reals.
*/
module Numbers {
  import opened Wrappers
  import Text

  predicate IsDigit(c: char) {
    '0' <= c <= '9'
  }

  predicate AllDigits(s: string) {
    forall i :: 0 <= i < |s| ==> IsDigit(s[i])
  }

  function DigitValue(c: char): nat
    requires IsDigit(c)
  {
    c as int - '0' as int
  }

  /** The value of a string of decimal digits, most significant first. */
  function DigitsValue(s: string): nat
    requires AllDigits(s)
    decreases |s|
  {
    if |s| == 0 then 0 else DigitsValue(s[..|s| - 1]) * 10 + DigitValue(s[|s| - 1])
  }

  function Pow10(n: nat): (p: nat)
    ensures p >= 1
  {
    if n == 0 then 1 else 10 * Pow10(n - 1)
  }

  /** The position of the first occurrence of `c`. */
  function FirstIndex(s: string, c: char): (k: nat)
    requires c in s
    ensures k < |s| && s[k] == c && c !in s[..k]
  {
    if s[0] == c then 0 else FirstIndex(s[1..], c) + 1
  }

  /** Digits with at most one '.', and at least one digit: "8", "8.5", "8.", ".5". */
  function ParseUnsigned(s: string): Option<real> {
    if '.' in s then
      var k := FirstIndex(s, '.');
      var whole, frac := s[..k], s[k + 1..];
      if AllDigits(whole) && AllDigits(frac) && |whole| + |frac| > 0 then
        Some(DigitsValue(whole) as real + DigitsValue(frac) as real / Pow10(|frac|) as real)
      else None
    else if AllDigits(s) && |s| > 0 then Some(DigitsValue(s) as real)
    else None
  }

  /** A plain decimal literal with an optional sign and no surrounding blanks. */
  function ParseDecimal(s: string): Option<real> {
    if |s| > 0 && s[0] == '-' then
      match ParseUnsigned(s[1..])
      case Some(x) => Some(-x)
      case None => None
    else if |s| > 0 && s[0] == '+' then ParseUnsigned(s[1..])
    else ParseUnsigned(s)
  }

  /**
    Python's `float(s)` on the decimal literals: surrounding blanks are ignored and `None`
    stands for the ValueError that `float` raises.
  */
  function ParseFloat(s: string): Option<real> {
    ParseDecimal(Text.Strip(s))
  }

  /** Characters that can occur in a decimal literal. */
  predicate IsNumeral(c: char) {
    IsDigit(c) || c == '.' || c == '-' || c == '+'
  }

  lemma UnsignedCharset(s: string)
    requires ParseUnsigned(s).Some?
    ensures |s| > 0 && forall i :: 0 <= i < |s| ==> IsDigit(s[i]) || s[i] == '.'
  {
    if '.' in s {
      var k := FirstIndex(s, '.');
      forall i | 0 <= i < |s| ensures IsDigit(s[i]) || s[i] == '.' {
        if i < k {
          assert s[i] == s[..k][i];
        } else if i > k {
          assert s[i] == s[k + 1..][i - k - 1];
        }
      }
    }
  }

  /** A decimal literal consists of digits, one point and a sign only. */
  lemma DecimalCharset(s: string)
    requires ParseDecimal(s).Some?
    ensures |s| > 0
    ensures forall i :: 0 <= i < |s| ==> IsNumeral(s[i])
    ensures exists i :: 0 <= i < |s| && IsDigit(s[i])
  {
    var t := if |s| > 0 && (s[0] == '-' || s[0] == '+') then s[1..] else s;
    UnsignedCharset(t);
    assert forall i :: 0 <= i < |t| ==> IsDigit(t[i]) || t[i] == '.';
    forall i | 0 <= i < |s| ensures IsNumeral(s[i]) {
      if t != s && i > 0 {
        assert s[i] == t[i - 1];
      }
    }
    assert exists i :: 0 <= i < |s| && IsDigit(s[i]) by {
      DigitInUnsigned(t);
      var j :| 0 <= j < |t| && IsDigit(t[j]);
      if t == s {
        assert IsDigit(s[j]);
      } else {
        assert IsDigit(s[j + 1]);
      }
    }
  }

  lemma DigitInUnsigned(s: string)
    requires ParseUnsigned(s).Some?
    ensures exists i :: 0 <= i < |s| && IsDigit(s[i])
  {
    if '.' in s {
      var k := FirstIndex(s, '.');
      if k > 0 {
        assert IsDigit(s[..k][0]);
        assert IsDigit(s[0]);
      } else {
        assert IsDigit(s[k + 1..][0]);
        assert IsDigit(s[k + 1]);
      }
    } else {
      assert IsDigit(s[0]);
    }
  }

  function DigitChar(d: nat): (c: char)
    requires d < 10
    ensures IsDigit(c) && DigitValue(c) == d
  {
    ('0' as int + d) as char
  }

  /** Python's `str(n)` for a natural number. */
  function NatToString(n: nat): (s: string)
    ensures |s| > 0 && AllDigits(s)
  {
    if n < 10 then [DigitChar(n)] else NatToString(n / 10) + [DigitChar(n % 10)]
  }

  /** Reading back a rendered natural gives the natural. */
  lemma {:induction false} NatToStringValue(n: nat)
    ensures DigitsValue(NatToString(n)) == n
  {
    if n >= 10 {
      NatToStringValue(n / 10);
      var s := NatToString(n);
      assert s[..|s| - 1] == NatToString(n / 10);
    }
  }

  lemma ParseUnsignedNatToString(n: nat)
    ensures ParseUnsigned(NatToString(n)) == Some(n as real)
  {
    var s := NatToString(n);
    NatToStringValue(n);
    assert '.' !in s;
  }

  /** Python's `str(n)` for an integer. */
  function IntToString(n: int): (s: string)
    ensures |s| > 0 && IsDigit(s[|s| - 1]) && (IsDigit(s[0]) || s[0] == '-')
  {
    if n < 0 then "-" + NatToString(-n) else NatToString(n)
  }

  /** Reading a rendered integer back with `float()` gives the integer. */
  lemma ParseFloatIntToString(n: int)
    ensures ParseFloat(IntToString(n)) == Some(n as real)
  {
    var s := IntToString(n);
    Text.StripUnpadded(s);
    if n < 0 {
      assert s[1..] == NatToString(-n);
      ParseUnsignedNatToString(-n);
    } else {
      ParseUnsignedNatToString(n);
    }
  }

  /** A decimal literal has no blanks around it, so `float()` reads it as it is. */
  lemma ParseFloatDecimal(s: string)
    requires ParseDecimal(s).Some?
    ensures ParseFloat(s) == ParseDecimal(s)
  {
    DecimalCharset(s);
    Text.StripUnpadded(s);
  }

  /** A string with a character that no decimal literal contains is not one. */
  lemma NotDecimal(s: string, i: nat)
    requires i < |s| && !IsNumeral(s[i])
    ensures ParseDecimal(s) == None
  {
    if ParseDecimal(s).Some? {
      DecimalCharset(s);
    }
  }

  /** Round half to even: the integer nearest to `r`, the even one on a tie. */
  function RoundHalfEven(r: real): (n: int)
    ensures -0.5 <= n as real - r <= 0.5
    ensures (n as real - r == 0.5 || r - n as real == 0.5) ==> n % 2 == 0
  {
    var f := r.Floor;
    var frac := r - f as real;
    if frac < 0.5 then f
    else if frac > 0.5 then f + 1
    else if f % 2 == 0 then f
    else f + 1
  }

  /** The factor 10^places as a real. */
  function Scale(places: nat): (s: real)
    ensures s >= 1.0
  {
    Pow10(places) as real
  }

  /** `x` rounded to a multiple of `1 / scale`, half to even. */
  function RoundScaled(x: real, scale: real): real
    requires scale >= 1.0
  {
    RoundHalfEven(x * scale) as real / scale
  }

  /** `x` rounded to `places` decimal places, half to even (numpy's `around` on an exact value). */
  function RoundTo(x: real, places: nat): real {
    RoundScaled(x, Scale(places))
  }

  /** Rounding moves a value by at most half a unit in the last kept place. */
  lemma RoundToError(x: real, places: nat)
    ensures -0.5 / Scale(places) <= RoundTo(x, places) - x <= 0.5 / Scale(places)
  {
    ScaledRoundError(x, Scale(places));
  }

  lemma ScaledRoundError(x: real, scale: real)
    requires scale >= 1.0
    ensures -0.5 / scale <= RoundScaled(x, scale) - x <= 0.5 / scale
  {
    var y := RoundHalfEven(x * scale) as real;
    var d := y - x * scale;
    assert y / scale - x == d / scale;
    DivideMonotone(-0.5, d, scale);
    DivideMonotone(d, 0.5, scale);
  }

  lemma DivideMonotone(a: real, b: real, scale: real)
    requires a <= b && scale > 0.0
    ensures a / scale <= b / scale
  {
    assert b / scale - a / scale == (b - a) / scale;
  }

  lemma RoundHalfEvenInt(r: real, n: int)
    requires r == n as real
    ensures RoundHalfEven(r) == n
  {
  }

  /** Rounding a value that already has `places` decimals leaves it unchanged. */
  lemma RoundToExact(n: int, places: nat)
    ensures RoundTo(n as real / Scale(places), places) == n as real / Scale(places)
  {
    ScaledRoundExact(n, Scale(places));
  }

  lemma ScaledRoundExact(n: int, scale: real)
    requires scale >= 1.0
    ensures RoundScaled(n as real / scale, scale) == n as real / scale
  {
    var y := n as real / scale;
    assert y * scale == n as real;
    RoundHalfEvenInt(y * scale, n);
    RoundScaledOf(y, scale, n);
  }

  lemma RoundScaledOf(x: real, scale: real, n: int)
    requires scale >= 1.0 && RoundHalfEven(x * scale) == n
    ensures RoundScaled(x, scale) == n as real / scale
  {
  }

  /** Rounding twice to the same number of places is rounding once. */
  lemma RoundToIdempotent(x: real, places: nat)
    ensures RoundTo(RoundTo(x, places), places) == RoundTo(x, places)
  {
    ScaledRoundIdempotent(x, Scale(places));
  }

  lemma ScaledRoundIdempotent(x: real, scale: real)
    requires scale >= 1.0
    ensures RoundScaled(RoundScaled(x, scale), scale) == RoundScaled(x, scale)
  {
    ScaledRoundExact(RoundHalfEven(x * scale), scale);
  }

  /** Whole numbers are not moved by rounding. */
  lemma RoundToWhole(n: int, places: nat)
    ensures RoundTo(n as real, places) == n as real
  {
    assert Scale(places) == Pow10(places) as real;
    ScaledRoundWhole(n, Pow10(places));
  }

  lemma ScaledRoundWhole(n: int, k: nat)
    requires k >= 1
    ensures RoundScaled(n as real, k as real) == n as real
  {
    RoundHalfEvenInt(n as real * k as real, n * k);
  }
}
