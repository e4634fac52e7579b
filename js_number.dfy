/**
 * JavaScript's `Number(s)` on texts made only of ASCII digits, '.' and '-'
 * (the only texts the leaderboard ever converts), computed over exact reals,
 * and `String(n)` for integers.
 */
module JsNumber {
  import opened Wrappers
  import opened JsString

  predicate AllDigits(s: string)
  {
    forall k :: 0 <= k < |s| ==> IsDigit(s[k])
  }

  function DigitValue(c: char): (d: nat)
    requires IsDigit(c)
    ensures d < 10
  {
    c as int - '0' as int
  }

  /** The value of a decimal digit string, most significant digit first; "" is 0. */
  function DigitsValue(s: string): nat
    requires AllDigits(s)
  {
    if s == [] then 0 else 10 * DigitsValue(s[..|s| - 1]) + DigitValue(s[|s| - 1])
  }

  function Pow10(k: nat): (r: nat)
    ensures r >= 1
  {
    if k == 0 then 1 else 10 * Pow10(k - 1)
  }

  /**
   * The unsigned part `DecimalDigits [. DecimalDigits?] | . DecimalDigits`:
   * None when `t` is not of that shape (JavaScript's NaN).
   */
  function UnsignedValue(t: string): (r: Option<real>)
    ensures r.Some? ==> r.value >= 0.0
  {
    var k := IndexOf(t, '.');
    var whole := t[..k];
    var frac := if k < |t| then t[k + 1..] else [];
    if AllDigits(whole) && AllDigits(frac) && (|whole| > 0 || |frac| > 0) then
      Some(DecimalValue(whole, frac))
    else
      None
  }

  /** The value of `whole.frac`. */
  function DecimalValue(whole: string, frac: string): (v: real)
    requires AllDigits(whole) && AllDigits(frac)
    ensures v >= 0.0
  {
    DigitsValue(whole) as real + DigitsValue(frac) as real / Pow10(|frac|) as real
  }

  /**
   * `Number(s)` for a text of digits, '.' and '-': the empty text is 0, an
   * optional leading '-' negates, and any other shape is NaN (None).
   */
  function NumberOf(s: string): Option<real>
    requires forall k :: 0 <= k < |s| ==> IsNumeric(s[k])
  {
    if s == [] then Some(0.0)
    else if s[0] == '-' then
      match UnsignedValue(s[1..])
      case Some(v) => Some(-v)
      case None => None
    else UnsignedValue(s)
  }

  function DigitChar(d: nat): (c: char)
    requires d < 10
    ensures IsDigit(c) && DigitValue(c) == d
  {
    ('0' as int + d) as char
  }

  /** Decimal text of a natural number, without leading zeros; it reads back as `n`. */
  function NatText(n: nat): (r: string)
    ensures r != [] && AllDigits(r)
    ensures DigitsValue(r) == n
    ensures |r| > 1 ==> r[0] != '0'
  {
    if n < 10 then [DigitChar(n)]
    else
      var r := NatText(n / 10) + [DigitChar(n % 10)];
      assert r[..|r| - 1] == NatText(n / 10);
      r
  }

  /** `String(n)` for an integer `n`: a '-' sign for negatives, then the digits of `|n|` without leading zeros. */
  function StringOf(n: int): (r: string)
    ensures r != [] && r[|r| - 1] != '-'
    ensures forall k :: 0 <= k < |r| ==> IsNumeric(r[k]) && r[k] != '.'
    ensures (n < 0) == (r[0] == '-')
    ensures var d := if n < 0 then r[1..] else r;
      d != [] && AllDigits(d) && DigitsValue(d) == (if n < 0 then -n else n) && (|d| > 1 ==> d[0] != '0')
  {
    if n < 0 then "-" + NatText(-n) else NatText(n)
  }

  /** A digit string has no '.', so it reads as a whole number. */
  lemma UnsignedOfDigits(t: string)
    requires t != [] && AllDigits(t)
    ensures UnsignedValue(t) == Some(DigitsValue(t) as real)
  {
    IndexOfAbsent(t, '.');
    assert t[..|t|] == t;
    DecimalValueWhole(t);
  }

  /** A decimal without fraction digits is its whole part. */
  lemma DecimalValueWhole(whole: string)
    requires AllDigits(whole)
    ensures DecimalValue(whole, []) == DigitsValue(whole) as real
  {
    assert DigitsValue([]) == 0;
  }

  /** `Number(String(n)) == n`: the decimal text of an integer reads back as it. */
  lemma NumberOfStringOf(n: int)
    ensures NumberOf(StringOf(n)) == Some(n as real)
  {
    var s := StringOf(n);
    if n < 0 {
      assert s[1..] == NatText(-n);
      UnsignedOfDigits(NatText(-n));
    } else {
      UnsignedOfDigits(NatText(n));
    }
  }

  /** A digit string of length n is below 10^n. */
  lemma {:induction false} DigitsValueBound(s: string)
    requires AllDigits(s)
    ensures DigitsValue(s) < Pow10(|s|)
  {
    if s != [] {
      DigitsValueBound(s[..|s| - 1]);
    }
  }

  /** `whole.frac` reads as the whole part plus the fraction. */
  lemma UnsignedOfParts(whole: string, frac: string)
    requires whole != [] && AllDigits(whole) && AllDigits(frac)
    ensures UnsignedValue(whole + "." + frac) == Some(DecimalValue(whole, frac))
  {
    var t := whole + "." + frac;
    IndexOfAfter(whole, '.', frac);
    assert t[..|whole|] == whole && t[|whole| + 1..] == frac;
  }

  /** `whole.rest` is not a number when `rest` is not a digit string (a second '.', say). */
  lemma UnsignedNotNumber(whole: string, rest: string)
    requires AllDigits(whole) && !AllDigits(rest)
    ensures UnsignedValue(whole + "." + rest) == None
  {
    var t := whole + "." + rest;
    IndexOfAfter(whole, '.', rest);
    assert t[..|whole|] == whole && t[|whole| + 1..] == rest;
  }

  lemma NegOfProduct(a: real, b: real)
    requires b > 0.0 && a * b < 0.0
    ensures a < 0.0
  {
  }

  lemma ZeroOfProduct(a: real, b: real)
    requires b > 0.0 && a * b == 0.0
    ensures a == 0.0
  {
  }

  lemma NonnegOfProduct(a: real, b: real)
    requires b > 0.0 && a * b >= 0.0
    ensures a >= 0.0
  {
  }

  /** A proper fraction `f / p` lies in [0, 1) and is 0 only for `f == 0`. */
  lemma DivBelowOne(f: real, p: real)
    requires 0.0 <= f < p
    ensures 0.0 <= f / p < 1.0
    ensures f / p == 0.0 <==> f == 0.0
  {
    var q := f / p;
    assert q * p == f;
    assert (q - 1.0) * p == q * p - 1.0 * p;
    NegOfProduct(q - 1.0, p);
    NonnegOfProduct(q, p);
    if f == 0.0 {
      ZeroOfProduct(q, p);
    }
  }

  lemma FloorAdd(w: int, x: real)
    requires 0.0 <= x < 1.0
    ensures (w as real + x).Floor == w
  {
  }

  /** The fraction part of `whole.frac` is below 1, so the value floors to `whole`. */
  lemma FloorOfParts(whole: string, frac: string)
    requires AllDigits(whole) && AllDigits(frac)
    ensures DecimalValue(whole, frac).Floor == DigitsValue(whole)
  {
    DigitsValueBound(frac);
    DivBelowOne(DigitsValue(frac) as real, Pow10(|frac|) as real);
    FloorAdd(DigitsValue(whole), DigitsValue(frac) as real / Pow10(|frac|) as real);
  }

  lemma FloorNegAdd(w: int, x: real)
    requires 0.0 <= x < 1.0
    ensures (-(w as real + x)).Floor == if x == 0.0 then -w else -w - 1
  {
  }

  /** `-whole.frac` floors away from zero unless the fraction is all zeros. */
  lemma FloorOfNegParts(whole: string, frac: string)
    requires AllDigits(whole) && AllDigits(frac)
    ensures (-DecimalValue(whole, frac)).Floor ==
      if DigitsValue(frac) == 0 then -(DigitsValue(whole) as int) else -(DigitsValue(whole) as int) - 1
  {
    DigitsValueBound(frac);
    DivBelowOne(DigitsValue(frac) as real, Pow10(|frac|) as real);
    FloorNegAdd(DigitsValue(whole), DigitsValue(frac) as real / Pow10(|frac|) as real);
  }

  /** `-whole.frac` reads as the negated decimal. */
  lemma NumberOfNegDecimal(whole: string, frac: string)
    requires whole != [] && AllDigits(whole) && AllDigits(frac)
    ensures forall k :: 0 <= k < |"-" + (whole + "." + frac)| ==> IsNumeric(("-" + (whole + "." + frac))[k])
    ensures NumberOf("-" + (whole + "." + frac)) == Some(-DecimalValue(whole, frac))
  {
    var t := whole + "." + frac;
    DecimalIsNumeric(whole, frac);
    UnsignedOfParts(whole, frac);
    NumberOfNegated(t, DecimalValue(whole, frac));
  }

  /** A '-' in front negates an unsigned number. */
  lemma NumberOfNegated(t: string, v: real)
    requires forall k :: 0 <= k < |t| ==> IsNumeric(t[k])
    requires UnsignedValue(t) == Some(v)
    ensures forall k :: 0 <= k < |"-" + t| ==> IsNumeric(("-" + t)[k])
    ensures NumberOf("-" + t) == Some(-v)
  {
    assert ("-" + t)[1..] == t;
  }

  /** The text `whole.frac` is made of digits and one '.'. */
  lemma DecimalIsNumeric(whole: string, frac: string)
    requires AllDigits(whole) && AllDigits(frac)
    ensures forall k :: 0 <= k < |whole + "." + frac| ==> IsNumeric((whole + "." + frac)[k])
  {
  }

  /** `whole.frac` reads as the decimal. */
  lemma NumberOfDecimal(whole: string, frac: string)
    requires whole != [] && AllDigits(whole) && AllDigits(frac)
    ensures forall k :: 0 <= k < |whole + "." + frac| ==> IsNumeric((whole + "." + frac)[k])
    ensures NumberOf(whole + "." + frac) == Some(DecimalValue(whole, frac))
  {
    assert (whole + "." + frac)[0] == whole[0];
    UnsignedOfParts(whole, frac);
  }
}
