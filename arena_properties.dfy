/** What the `GET /api/arena` handler guarantees about its response. */
module ArenaProperties {
  import opened Wrappers
  import opened JsString
  import opened JsNumber
  import opened JsArray
  import opened JsSort
  import opened ArenaRoute

  // ---------------------------------------------------------------- toInt

  /** `toInt` of a cell whose cleaned text reads as the number `v`. */
  lemma ToIntOfNumber(x: Option<string>, v: real)
    requires NumberOf(CleanNumeric(Text(x))) == Some(v)
    ensures ToInt(x) == v.Floor
  {
  }

  /** `toInt` of a cell whose cleaned text is not a number. */
  lemma ToIntOfNaN(x: Option<string>)
    requires NumberOf(CleanNumeric(Text(x))) == None
    ensures ToInt(x) == 0
  {
  }

  /** An absent or blank cell counts as 0. */
  lemma ToIntBlank(pad: string)
    requires AllWhiteSpace(pad)
    ensures ToInt(None) == 0 && ToInt(Some(pad)) == 0
  {
    assert Text(None) == "";
    TrimPadding(pad, "", []);
    assert pad + "" + [] == pad;
    assert Trim(pad) == "";
    assert CleanNumeric(pad) == "";
  }

  /** A cell holding the decimal text of an integer reads back as that integer. */
  lemma ToIntOfStringOf(n: int)
    ensures ToInt(Some(StringOf(n))) == n
  {
    CleanNumberText(StringOf(n));
    NumberOfStringOf(n);
    ToIntOfNumber(Some(StringOf(n)), n as real);
  }

  /** White space around a cell does not change its value. */
  lemma ToIntPadding(pre: string, s: string, post: string)
    requires AllWhiteSpace(pre) && AllWhiteSpace(post)
    ensures ToInt(Some(pre + s + post)) == ToInt(Some(s))
  {
    TrimPadding(pre, s, post);
  }

  /** No character of `s` survives the symbol stripping, and none of them is a ','. */
  ghost predicate NoNumberText(s: string)
  {
    forall k :: 0 <= k < |s| ==> !IsNumeric(s[k]) && s[k] != ','
  }

  /** A cell that cleans to `whole.frac` floors to `whole`. */
  lemma ToIntOfDecimal(s: string, whole: string, frac: string)
    requires whole != [] && AllDigits(whole) && AllDigits(frac)
    requires CleanNumeric(s) == whole + "." + frac
    ensures ToInt(Some(s)) == DigitsValue(whole)
  {
    NumberOfDecimal(whole, frac);
    ToIntOfNumber(Some(s), DecimalValue(whole, frac));
    FloorOfParts(whole, frac);
  }

  lemma CommaTextTrimmed(whole: string, frac: string, junk: string)
    requires whole != [] && AllDigits(whole) && AllDigits(frac)
    requires NoNumberText(junk) && (junk == [] || !IsWhiteSpace(junk[|junk| - 1]))
    ensures Trim(whole + "," + frac + junk) == whole + "," + frac + junk
  {
    var s := whole + "," + frac + junk;
    assert s[0] == whole[0];
    assert s[|s| - 1] == if junk != [] then junk[|junk| - 1] else if frac != [] then frac[|frac| - 1] else ',';
    TrimNoEdgeSpace(s);
  }

  lemma CommaTextReplaced(whole: string, frac: string, junk: string)
    requires AllDigits(whole)
    ensures ReplaceFirst(whole + "," + frac + junk, ',', '.') == whole + "." + frac + junk
  {
    assert whole + "," + frac + junk == whole + [','] + (frac + junk);
    ReplaceFirstAt(whole, ',', '.', frac + junk);
    assert whole + ['.'] + (frac + junk) == whole + "." + frac + junk;
  }

  lemma DecimalTextKept(whole: string, frac: string, junk: string)
    requires AllDigits(whole) && AllDigits(frac) && NoNumberText(junk)
    ensures KeepNumeric(whole + "." + frac + junk) == whole + "." + frac
  {
    var num := whole + "." + frac;
    assert forall k :: 0 <= k < |num| ==> IsNumeric(num[k]);
    KeepNumericDropsTail(num, junk);
  }

  lemma CleanCommaDecimal(whole: string, frac: string, junk: string)
    requires whole != [] && AllDigits(whole) && AllDigits(frac)
    requires NoNumberText(junk) && (junk == [] || !IsWhiteSpace(junk[|junk| - 1]))
    ensures CleanNumeric(whole + "," + frac + junk) == whole + "." + frac
  {
    CommaTextTrimmed(whole, frac, junk);
    CommaTextReplaced(whole, frac, junk);
    DecimalTextKept(whole, frac, junk);
  }

  /**
   * The ',' is read as a decimal point and trailing symbols are dropped, so
   * `1,200 pts` is 1.2 and floors to 1: a thousands separator cuts the
   * number short.
   */
  lemma ToIntCommaIsDecimalPoint(whole: string, frac: string, junk: string)
    requires whole != [] && AllDigits(whole) && AllDigits(frac)
    requires NoNumberText(junk) && (junk == [] || !IsWhiteSpace(junk[|junk| - 1]))
    ensures ToInt(Some(whole + "," + frac + junk)) == DigitsValue(whole)
  {
    CleanCommaDecimal(whole, frac, junk);
    ToIntOfDecimal(whole + "," + frac + junk, whole, frac);
  }

  lemma NumberTextTrimmed(s: string)
    requires forall k :: 0 <= k < |s| ==> IsNumeric(s[k])
    ensures Trim(s) == s
  {
    if s != [] {
      assert IsNumeric(s[0]) && IsNumeric(s[|s| - 1]);
    }
    TrimNoEdgeSpace(s);
  }

  /** A text made only of digits, '.' and '-' comes out of the cleaning unchanged. */
  lemma CleanNumberText(s: string)
    requires forall k :: 0 <= k < |s| ==> IsNumeric(s[k])
    ensures CleanNumeric(s) == s
  {
    NumberTextTrimmed(s);
    ReplaceFirstAbsent(s, ',', '.');
    KeepNumericOfNumeric(s);
  }

  lemma CleanNegativeDecimal(whole: string, frac: string)
    requires whole != [] && AllDigits(whole) && AllDigits(frac)
    ensures CleanNumeric("-" + (whole + "." + frac)) == "-" + (whole + "." + frac)
  {
    NumberOfNegDecimal(whole, frac);
    CleanNumberText("-" + (whole + "." + frac));
  }

  lemma ToIntOfNegativeValue(x: Option<string>, whole: string, frac: string)
    requires whole != [] && AllDigits(whole) && AllDigits(frac)
    requires NumberOf(CleanNumeric(Text(x))) == Some(-DecimalValue(whole, frac))
    ensures ToInt(x) == (-DecimalValue(whole, frac)).Floor
  {
    ToIntOfNumber(x, -DecimalValue(whole, frac));
  }

  lemma NegativeFloor(x: Option<string>, whole: string, frac: string)
    requires whole != [] && AllDigits(whole) && AllDigits(frac)
    requires NumberOf(CleanNumeric(Text(x))) == Some(-DecimalValue(whole, frac))
    ensures ToInt(x) ==
      if DigitsValue(frac) == 0 then -(DigitsValue(whole) as int) else -(DigitsValue(whole) as int) - 1
  {
    ToIntOfNegativeValue(x, whole, frac);
    FloorOfNegParts(whole, frac);
  }

  /** A negative decimal floors away from zero unless its fraction is all zeros: "-1.5" is -2. */
  lemma ToIntNegativeFloorsDown(whole: string, frac: string)
    requires whole != [] && AllDigits(whole) && AllDigits(frac)
    ensures ToInt(Some("-" + (whole + "." + frac))) ==
      if DigitsValue(frac) == 0 then -(DigitsValue(whole) as int) else -(DigitsValue(whole) as int) - 1
  {
    CleanNegativeDecimal(whole, frac);
    NumberOfNegDecimal(whole, frac);
    NegativeFloor(Some("-" + (whole + "." + frac)), whole, frac);
  }

  lemma DotCommaTextTrimmed(a: string, b: string, c: string)
    requires a != [] && AllDigits(a) && AllDigits(b) && AllDigits(c)
    ensures Trim(a + "." + b + "," + c) == a + "." + b + "," + c
  {
    var s := a + "." + b + "," + c;
    assert s[0] == a[0];
    assert s[|s| - 1] == if c != [] then c[|c| - 1] else ',';
    TrimNoEdgeSpace(s);
  }

  lemma DotCommaTextReplaced(a: string, b: string, c: string)
    requires AllDigits(a) && AllDigits(b)
    ensures ReplaceFirst(a + "." + b + "," + c, ',', '.') == a + "." + b + "." + c
  {
    var front := a + "." + b;
    assert a + "." + b + "," + c == front + [','] + c;
    assert forall k :: 0 <= k < |front| ==> IsNumeric(front[k]);
    ReplaceFirstAt(front, ',', '.', c);
  }

  lemma CleanDotThenComma(a: string, b: string, c: string)
    requires a != [] && AllDigits(a) && AllDigits(b) && AllDigits(c)
    ensures CleanNumeric(a + "." + b + "," + c) == a + "." + b + "." + c
  {
    DotCommaTextTrimmed(a, b, c);
    DotCommaTextReplaced(a, b, c);
    var t := a + "." + b + "." + c;
    assert forall k :: 0 <= k < |t| ==> IsNumeric(t[k]);
    KeepNumericOfNumeric(t);
  }

  /** The European spelling `1.200,5` cleans to `1.200.5`, which is not a number, so it is 0. */
  lemma ToIntDotThenComma(a: string, b: string, c: string)
    requires a != [] && AllDigits(a) && AllDigits(b) && AllDigits(c)
    ensures ToInt(Some(a + "." + b + "," + c)) == 0
  {
    CleanDotThenComma(a, b, c);
    var rest := b + "." + c;
    assert a + "." + b + "." + c == a + "." + rest;
    assert rest[|b|] == '.';
    UnsignedNotNumber(a, rest);
    assert (a + "." + rest)[0] == a[0];
  }

  /** Trimming takes a slice, so it adds no digit, '.' or '-'. */
  lemma TrimmedWithoutDigits(s: string)
    requires forall k :: 0 <= k < |s| ==> !IsNumeric(s[k])
    ensures forall k :: 0 <= k < |Trim(s)| ==> !IsNumeric(Trim(s)[k])
  {
    TrimKeeps(s, c => !IsNumeric(c));
  }


  /** After the first ',' is made a '.', only that '.' survives the stripping. */
  lemma KeepAfterReplaceWithoutDigits(t: string)
    requires forall k :: 0 <= k < |t| ==> !IsNumeric(t[k])
    ensures KeepNumeric(ReplaceFirst(t, ',', '.')) == "" || KeepNumeric(ReplaceFirst(t, ',', '.')) == "."
  {
    ReplaceFirstSpec(t, ',', '.');
    var k := IndexOf(t, ',');
    if k == |t| {
      KeepNumericNone(t);
    } else {
      KeepNumericNone(t[..k]);
      KeepNumericNone(t[k + 1..]);
      KeepNumericConcat(t[..k], ['.']);
      KeepNumericConcat(t[..k] + ['.'], t[k + 1..]);
    }
  }

  lemma CleanWithoutDigits(s: string)
    requires forall k :: 0 <= k < |s| ==> !IsNumeric(s[k])
    ensures CleanNumeric(s) == "" || CleanNumeric(s) == "."
  {
    TrimmedWithoutDigits(s);
    KeepAfterReplaceWithoutDigits(Trim(s));
  }

  /** A cell without a digit, '.' or '-' (a word, a symbol) is 0. */
  lemma ToIntWithoutDigits(s: string)
    requires forall k :: 0 <= k < |s| ==> !IsNumeric(s[k])
    ensures ToInt(Some(s)) == 0
  {
    CleanWithoutDigits(s);
    if CleanNumeric(s) == "" {
      ToIntOfNumber(Some(s), 0.0);
    } else {
      assert IndexOf(".", '.') == 0;
      ToIntOfNaN(Some(s));
    }
  }

  /** "1,200" reads as 1.2, so a thousands separator makes it 1; a trailing unit, as in "1,200 pts", changes nothing. */
  lemma ToIntThousandsExample(s: string)
    requires s == "1,200" || s == "1,200 pts"
    ensures ToInt(Some(s)) == 1
  {
    if s == "1,200" {
      assert s == "1" + "," + "200" + "";
      ToIntCommaIsDecimalPoint("1", "200", "");
    } else {
      assert s == "1" + "," + "200" + " pts";
      ToIntCommaIsDecimalPoint("1", "200", " pts");
    }
  }

  /** "-1.5" floors to -2. */
  lemma ToIntNegativeExample(s: string)
    requires s == "-1.5"
    ensures ToInt(Some(s)) == -2
  {
    assert s == "-" + ("1" + "." + "5");
    assert DigitsValue("5") == 5;
    ToIntNegativeFloorsDown("1", "5");
  }

  /** "1.200,5" is not a number once cleaned, so it is 0. */
  lemma ToIntEuropeanExample(s: string)
    requires s == "1.200,5"
    ensures ToInt(Some(s)) == 0
  {
    assert s == "1" + "." + "200" + "," + "5";
    ToIntDotThenComma("1", "200", "5");
  }

  /** "n/a" has no digit, so it is 0. */
  lemma ToIntWordExample(s: string)
    requires s == "n/a"
    ensures ToInt(Some(s)) == 0
  {
    ToIntWithoutDigits(s);
  }

  // ----------------------------------------------------------- isTrueLike

  /** The flag of a cell whose trimmed, lower-cased text is `t`. */
  lemma IsTrueLikeOf(s: string, t: string)
    requires ToLowerCase(Trim(s)) == t
    ensures IsTrueLike(Some(s)) <==> t == "true" || t == "1" || t == "yes" || t == "y" || t == "iya"
  {
  }

  /** "TRUE" is accepted. */
  lemma IsTrueLikeUpperExample(s: string)
    requires s == "TRUE"
    ensures IsTrueLike(Some(s))
  {
    TrimNoEdgeSpace(s);
    assert ToLowerCase(s) == "true";
    IsTrueLikeOf(s, "true");
  }

  /** " yes " is accepted. */
  lemma IsTrueLikePaddedExample(s: string)
    requires s == " yes "
    ensures IsTrueLike(Some(s))
  {
    assert s == " " + "yes" + " ";
    TrimPadding(" ", "yes", " ");
    TrimNoEdgeSpace("yes");
    IsTrueLikeOf(s, "yes");
  }

  /** "FALSE" is refused. */
  lemma IsTrueLikeFalseExample(s: string)
    requires s == "FALSE"
    ensures !IsTrueLike(Some(s))
  {
    TrimNoEdgeSpace(s);
    assert ToLowerCase(s) == "false";
    IsTrueLikeOf(s, "false");
  }

  /** "0" is refused. */
  lemma IsTrueLikeZeroExample(s: string)
    requires s == "0"
    ensures !IsTrueLike(Some(s))
  {
    TrimNoEdgeSpace(s);
    assert ToLowerCase(s) == "0";
    IsTrueLikeOf(s, "0");
  }

  /** An absent or blank cell is refused. */
  lemma IsTrueLikeBlank(pad: string)
    requires AllWhiteSpace(pad)
    ensures !IsTrueLike(None) && !IsTrueLike(Some(pad))
  {
    TrimPadding(pad, "", []);
    assert pad + "" + [] == pad;
    assert Trim("") == "";
    IsTrueLikeOf(pad, "");
    IsTrueLikeOf("", "");
  }

  /** White space around the flag does not change it. */
  lemma IsTrueLikePadding(pre: string, s: string, post: string)
    requires AllWhiteSpace(pre) && AllWhiteSpace(post)
    ensures IsTrueLike(Some(pre + s + post)) == IsTrueLike(Some(s))
  {
    TrimPadding(pre, s, post);
  }

  /** The flag ignores letter case. */
  lemma IsTrueLikeIgnoresCase(s: string)
    ensures IsTrueLike(Some(ToUpperCase(s))) == IsTrueLike(Some(s))
  {
    TrimUpper(s);
    LowerOfUpper(Trim(s));
  }

  // ----------------------------------------------------------------- week

  /** An absent or blank `week` parameter selects the current week. */
  lemma EffectiveWeekDefault(pad: string)
    requires AllWhiteSpace(pad)
    ensures EffectiveWeek(None) == "CURRENT" && EffectiveWeek(Some(pad)) == "CURRENT"
  {
    TrimPadding(pad, "", []);
    assert pad + "" + [] == pad;
    assert Trim("") == "";
  }

  /** The week label is never blank and carries no surrounding white space. */
  lemma EffectiveWeekTrimmed(w: Option<string>)
    ensures var r := EffectiveWeek(w); r != "" && Trim(r) == r
  {
    TrimIdempotent(Text(w));
    TrimNoEdgeSpace("CURRENT");
  }

  /** Feeding the week label back as the parameter selects the same week. */
  lemma EffectiveWeekIdempotent(w: Option<string>)
    ensures EffectiveWeek(Some(EffectiveWeek(w))) == EffectiveWeek(w)
  {
    EffectiveWeekTrimmed(w);
  }

  /** White space around the parameter does not change the week. */
  lemma EffectiveWeekPadding(pre: string, s: string, post: string)
    requires AllWhiteSpace(pre) && AllWhiteSpace(post)
    ensures EffectiveWeek(Some(pre + s + post)) == EffectiveWeek(Some(s))
  {
    TrimPadding(pre, s, post);
  }
}
