/** The two number parsers the loader calls: `int.Parse` (a 32-bit signed
    integer) and `decimal.Parse` (a base-10 mantissa with a power-of-ten
    scale, which is how .NET's `decimal` stores a value). Both are partial:
    text they do not accept gives `None`. The grammar is a plain digit string,
    with one optional decimal point for `decimal`. */
module Numbers {
  import opened Wrappers
  import opened Text

  /** `int.MaxValue`. */
  const Int32Max: nat := 0x7FFF_FFFF

  predicate IsDigit(c: char)
  {
    '0' <= c <= '9'
  }

  predicate AllDigits(s: string)
  {
    forall i :: 0 <= i < |s| ==> IsDigit(s[i])
  }

  function DigitValue(c: char): nat
    requires IsDigit(c)
  {
    c as int - '0' as int
  }

  function DigitChar(d: nat): (c: char)
    requires d < 10
    ensures IsDigit(c) && DigitValue(c) == d
  {
    (d + '0' as int) as char
  }

  /** The number a digit string denotes in base 10. */
  function DigitsValue(s: string): nat
    requires AllDigits(s)
  {
    if s == [] then 0 else DigitsValue(s[..|s| - 1]) * 10 + DigitValue(s[|s| - 1])
  }

  function Pow10(k: nat): (r: nat)
    ensures r >= 1
  {
    if k == 0 then 1 else 10 * Pow10(k - 1)
  }

  /** `int.Parse(s)`: accepted when `s` is a non-empty digit string whose
      value fits in an `int`; anything else is a parse failure. */
  function ParseInt(s: string): (r: Option<int>)
    ensures r.Some? ==> 0 <= r.value <= Int32Max
    ensures r.Some? ==> s != [] && AllDigits(s)
  {
    if s != [] && AllDigits(s) && DigitsValue(s) <= Int32Max then Some(DigitsValue(s)) else None
  }

  /** A `decimal`: the value `mantissa / 10^scale`, scale kept as written. */
  datatype Decimal = Decimal(mantissa: nat, scale: nat)
  {
    function Value(): real
    {
      mantissa as real / Pow10(scale) as real
    }
  }

  /** The `decimal` literal `0`. */
  const Zero := Decimal(0, 0)

  /** The text `decimal.Parse` accepts: a non-empty digit string, or digits,
      one `.` and digits, with at least one digit in all. */
  predicate DecimalSyntax(s: string)
  {
    || (s != [] && AllDigits(s))
    || (|s| >= 2 && exists k :: 0 <= k < |s| && s[k] == '.' && AllDigits(s[..k]) && AllDigits(s[k + 1..]))
  }

  /** A `.` with only digits before it is the first `.` of the text. */
  lemma PointAfterDigits(s: string, k: nat)
    requires k < |s| && s[k] == '.' && AllDigits(s[..k])
    ensures IndexOf(s, '.') == Some(k)
  {
    assert s[k] in s;
    var j := IndexOf(s, '.').value;
    forall i | 0 <= i < k ensures s[i] != '.' {
      assert s[..k][i] == s[i];
    }
    forall i | 0 <= i < j ensures s[i] != '.' {
      assert s[..j][i] == s[i];
    }
  }

  /** Without a `.` the grammar asks for a non-empty digit string. */
  lemma SyntaxWithoutPoint(s: string)
    requires '.' !in s
    ensures DecimalSyntax(s) <==> s != [] && AllDigits(s)
  {
    forall k | 0 <= k < |s| ensures s[k] != '.' {
      assert s[k] in s;
    }
  }

  /** With its first `.` at `k` the grammar asks for digits on both sides and
      at least one digit in all. */
  lemma SyntaxAtPoint(s: string, k: nat)
    requires IndexOf(s, '.') == Some(k)
    ensures DecimalSyntax(s) <==> |s| >= 2 && AllDigits(s[..k]) && AllDigits(s[k + 1..])
  {
    assert !IsDigit(s[k]);
    if DecimalSyntax(s) {
      var j :| 0 <= j < |s| && s[j] == '.' && AllDigits(s[..j]) && AllDigits(s[j + 1..]);
      PointAfterDigits(s, j);
    }
  }

  /** `decimal.Parse(s)`: digits, optionally followed by `.` and more digits,
      with at least one digit in all; the mantissa is every digit read in
      order and the scale is the number of digits after the point. */
  function ParseDecimal(s: string): (r: Option<Decimal>)
    ensures r.Some? ==> s != [] && r.value.scale < |s|
    ensures r.Some? && '.' !in s ==> AllDigits(s) && r.value == Decimal(DigitsValue(s), 0)
  {
    match IndexOf(s, '.')
    case None =>
      if s != [] && AllDigits(s) then Some(Decimal(DigitsValue(s), 0)) else None
    case Some(k) =>
      var whole, frac := s[..k], s[k + 1..];
      if |whole| + |frac| >= 1 && AllDigits(whole) && AllDigits(frac)
      then Some(Decimal(DigitsValue(whole + frac), |frac|))
      else None
  }

  /** `decimal.Parse` accepts exactly the texts of the grammar: every other
      text, `1a` or `1.2.3` say, is a parse failure. */
  lemma ParseDecimalAccepts(s: string)
    ensures ParseDecimal(s).Some? <==> DecimalSyntax(s)
  {
    match IndexOf(s, '.')
    case None =>
      SyntaxWithoutPoint(s);
    case Some(k) =>
      SyntaxAtPoint(s, k);
  }

  // ---------------------------------------------------------------------
  // Rendering numbers as text, the inverse of parsing

  /** `n` in base 10 with at least `width` digits, zeros in front as needed. */
  function PaddedDigits(n: nat, width: nat): (r: string)
    ensures AllDigits(r) && |r| >= width && r != []
    decreases n + width
  {
    if n < 10 && width <= 1 then [DigitChar(n)]
    else PaddedDigits(n / 10, if width == 0 then 0 else width - 1) + [DigitChar(n % 10)]
  }

  lemma {:induction false} PaddedDigitsValue(n: nat, width: nat)
    ensures DigitsValue(PaddedDigits(n, width)) == n
    decreases n + width
  {
    var r := PaddedDigits(n, width);
    if !(n < 10 && width <= 1) {
      var w := if width == 0 then 0 else width - 1;
      assert r[..|r| - 1] == PaddedDigits(n / 10, w);
      PaddedDigitsValue(n / 10, w);
    }
  }

  /** The shortest digit string denoting `n`. */
  function Digits(n: nat): (r: string)
    ensures r != [] && AllDigits(r)
  {
    PaddedDigits(n, 1)
  }

  lemma DigitsValueOfDigits(n: nat)
    ensures DigitsValue(Digits(n)) == n
  {
    PaddedDigitsValue(n, 1);
  }

  /** `int.Parse` reads back every `int` value from zero up written in digits. */
  lemma ParseIntRoundTrip(n: nat)
    requires n <= Int32Max
    ensures ParseInt(Digits(n)) == Some(n)
  {
    DigitsValueOfDigits(n);
  }

  /** A leading `0` adds nothing to the value of a digit string. */
  lemma {:induction false} LeadingZeroValue(s: string)
    requires AllDigits(s)
    ensures AllDigits(['0'] + s)
    ensures DigitsValue(['0'] + s) == DigitsValue(s)
    decreases |s|
  {
    var z := ['0'] + s;
    if s == [] {
      assert z[..0] == [];
    } else {
      var s' := s[..|s| - 1];
      assert z[..|z| - 1] == ['0'] + s' && z[|z| - 1] == s[|s| - 1];
      LeadingZeroValue(s');
    }
  }

  /** `int.Parse` reads a digit string with leading zeros, `007` say, as the
      digits without them: it accepts and rejects the same texts and gives
      the same value. */
  lemma ParseIntIgnoresLeadingZero(s: string)
    requires s != [] && AllDigits(s)
    ensures ParseInt(['0'] + s) == ParseInt(s)
  {
    LeadingZeroValue(s);
  }

  /** `int.Parse` rejects a digit string beyond `int.MaxValue` (it overflows). */
  lemma ParseIntRejectsOverflow(n: nat)
    requires n > Int32Max
    ensures ParseInt(Digits(n)) == None
  {
    DigitsValueOfDigits(n);
  }

  lemma {:induction false} DigitsValueAppend(a: string, b: string)
    requires AllDigits(a) && AllDigits(b)
    ensures AllDigits(a + b)
    ensures DigitsValue(a + b) == DigitsValue(a) * Pow10(|b|) + DigitsValue(b)
    decreases |b|
  {
    if b == [] {
      assert a + b == a;
    } else {
      var b' := b[..|b| - 1];
      var last := DigitValue(b[|b| - 1]);
      assert (a + b)[..|a + b| - 1] == a + b' && (a + b)[|a + b| - 1] == b[|b| - 1];
      DigitsValueAppend(a, b');
      ShiftDigit(DigitsValue(a), Pow10(|b'|), DigitsValue(b'), last);
      assert Pow10(|b|) == 10 * Pow10(|b'|);
    }
  }

  /** Appending one digit to `x` shifted by `p` followed by `y`. */
  lemma ShiftDigit(x: int, p: int, y: int, last: int)
    ensures (x * p + y) * 10 + last == x * (10 * p) + (y * 10 + last)
  {
  }

  /** The digits of `d` before the point: at least one, zero when the
      value is below one. */
  function WholeDigits(d: Decimal): (r: string)
    ensures AllDigits(r) && r != []
  {
    var p := PaddedDigits(d.mantissa, d.scale + 1);
    p[..|p| - d.scale]
  }

  /** The `scale` digits of `d` after the point. */
  function FractionDigits(d: Decimal): (r: string)
    ensures AllDigits(r) && |r| == d.scale
  {
    var p := PaddedDigits(d.mantissa, d.scale + 1);
    p[|p| - d.scale..]
  }

  lemma DecimalDigits(d: Decimal)
    ensures AllDigits(WholeDigits(d) + FractionDigits(d))
    ensures DigitsValue(WholeDigits(d) + FractionDigits(d)) == d.mantissa
  {
    var p := PaddedDigits(d.mantissa, d.scale + 1);
    assert WholeDigits(d) + FractionDigits(d) == p;
    PaddedDigitsValue(d.mantissa, d.scale + 1);
  }

  /** `d` written out with its full scale, and no point when the scale is
      zero: `Decimal(1250, 2)` is `12.50`. */
  function DecimalText(d: Decimal): string
  {
    if d.scale == 0 then WholeDigits(d) else WholeDigits(d) + "." + FractionDigits(d)
  }

  /** Written-out decimals hold digits and at most a point. */
  lemma DecimalTextSymbols(d: Decimal)
    ensures '$' !in DecimalText(d) && ',' !in DecimalText(d) && '"' !in DecimalText(d)
  {
    DigitsHaveNoPoint(WholeDigits(d));
    DigitsHaveNoPoint(FractionDigits(d));
  }

  lemma DigitsHaveNoPoint(s: string)
    requires AllDigits(s)
    ensures '.' !in s && ',' !in s && '$' !in s && '"' !in s
  {
  }

  /** With a point in it, `decimal.Parse` reads the digits on both sides as
      one mantissa and counts the digits after the point as the scale. */
  lemma ParseDecimalWithPoint(whole: string, frac: string)
    requires AllDigits(whole) && AllDigits(frac) && |whole| + |frac| >= 1
    ensures AllDigits(whole + frac)
    ensures ParseDecimal(whole + "." + frac) == Some(Decimal(DigitsValue(whole + frac), |frac|))
  {
    var s := whole + "." + frac;
    DigitsHaveNoPoint(whole);
    DigitsValueAppend(whole, frac);
    assert s[..|whole|] == whole;
    assert IndexOf(s, '.') == Some(|whole|);
    assert s[|whole| + 1..] == frac;
  }

  /** `decimal.Parse` reads `whole.frac` as `whole` plus `frac` tenths,
      hundredths and so on, keeping `|frac|` as the scale. */
  lemma ParseDecimalPoint(whole: string, frac: string)
    requires AllDigits(whole) && AllDigits(frac) && |whole| + |frac| >= 1
    ensures var r := ParseDecimal(whole + "." + frac);
      r.Some? && r.value.scale == |frac| &&
      r.value.Value() == DigitsValue(whole) as real + DigitsValue(frac) as real / Pow10(|frac|) as real
  {
    ParseDecimalWithPoint(whole, frac);
    DigitsValueAppend(whole, frac);
    DecimalValueSplits(DigitsValue(whole), DigitsValue(frac), DigitsValue(whole + frac), |frac|);
  }

  lemma DecimalValueSplits(a: nat, b: nat, m: nat, scale: nat)
    requires m == a * Pow10(scale) + b
    ensures Decimal(m, scale).Value()
      == a as real + b as real / Pow10(scale) as real
  {
    ScaledSum(a, b, Pow10(scale));
  }

  lemma ScaledSum(a: nat, b: nat, p: nat)
    requires p >= 1
    ensures (a * p + b) as real / p as real == a as real + b as real / p as real
  {
    var q := p as real;
    assert (a * p + b) as real == a as real * q + b as real;
    assert (a as real * q + b as real) / q == a as real * q / q + b as real / q;
    assert a as real * q / q == a as real;
  }

  /** `decimal.Parse` reads back every `decimal` written out, scale
      included. */
  lemma ParseDecimalRoundTrip(d: Decimal)
    ensures ParseDecimal(DecimalText(d)) == Some(d)
  {
    var whole, frac := WholeDigits(d), FractionDigits(d);
    DecimalDigits(d);
    if d.scale == 0 {
      DigitsHaveNoPoint(whole);
      assert frac == [] && whole + frac == whole;
    } else {
      ParseDecimalWithPoint(whole, frac);
    }
  }

  /** Malformed text is a parse failure: a letter after the digits, or a
      second point. */
  lemma MalformedDecimalExamples()
    ensures ParseDecimal("1a") == None
    ensures ParseDecimal("1.2.3") == None
  {
    assert !IsDigit("1a"[1]);
    assert "1.2.3"[..1] == "1" && !IsDigit("1.2.3"[2..][1]);
  }

  /** A text that strips down to nothing is not a number for either parser. */
  lemma EmptyIsNotANumber()
    ensures ParseInt("") == None && ParseDecimal("") == None && ParseDecimal(".") == None
  {
    assert IndexOf(".", '.') == Some(0);
  }
}
