/** Writing a number without an exponent. */
module NumberText {
  import opened Basics
  import opened Decimals
  import opened PreciseArithmetic
  import opened StringPrimitives
  import opened PreciseReading
  import opened PreciseText
  import opened NumberFormat

  // ----- the expansion -----------------------------------------------------

  /** new Array (n).join ('0'); None is a RangeError. */
  function JoinedZeros(n: Option<int>): Option<string> {
    if n.None? || n.value < 0 then None
    else if n.value == 0 then Some("")
    else Some(Zeros(n.value - 1))
  }

  /** numberToString on the text of a number; small says that the number lies strictly between -1 and 1. */
  function NumberToString(s: string, small: bool): Option<string> {
    if small then
      var parts := Split(s, "e-");
      var n := WithoutDot(parts[0]);
      var e := if |parts| > 1 then ParseInt(parts[1]) else None;
      var neg := s != [] && s[0] == '-';
      if e.None? || e.value == 0 then Some(s)
      else
        var zeros := JoinedZeros(e);
        if zeros.None? then None
        else Some((if neg then "-" else "") + "0." + zeros.value + if neg && n != [] then n[1..] else n)
    else
      var parts := Split(s, "e");
      if |parts| == 1 || parts[1] == "" then Some(s)
      else
        var m := Split(parts[0], ".");
        var part := if |m| > 1 then m[1] else "";
        var e := ParseInt(parts[1]);
        var zeros := JoinedZeros(if e.None? then None else Some(e.value - |part| + 1));
        if zeros.None? then None else Some(m[0] + part + zeros.value)
  }

  /** The texts of finite numbers: plain decimals, or one non-zero digit, a fraction and an exponent
      that reaches past the fraction. */
  ghost predicate IsNumberText(l: Literal) {
    && IsLiteral(l) && l.sign != Plus && l.whole != [] && (l.dot <==> l.frac != [])
    && (l.exp.Exponent? ==>
        && l.exp.mark == 'e' && |l.whole| == 1 && l.whole[0] != '0'
        && l.exp.sign != Unsigned && DigitsValue(l.exp.digits) > 0
        && (l.exp.sign == Plus ==> |l.frac| <= DigitsValue(l.exp.digits)))
  }

  lemma ParseIntDecimal(s: Sign, digits: string)
    requires AllDigits(digits) && digits != []
    ensures ParseInt(SignText(s) + digits) == Some(Signed(s, DigitsValue(digits)))
  {
    DecimalValue(digits);
    hide ParseInt, DigitsValue, RadixValue, SignText, IsDigitIn;
    ParseIntReads(Tail("", s, false, digits, ""), "");
    assert "" + (SignText(s) + ("" + digits)) + "" == SignText(s) + digits;
  }

  // ----- small and large ---------------------------------------------------

  lemma ValueMagnitude(sign: Sign, n: nat, decimals: int)
    ensures RealAbs(Value(Dec(Signed(sign, n), decimals))) == Value(Dec(n, decimals))
  {
    ValueOrder(n, 0, decimals);
    ValueOrder(0, n, decimals);
    SignOfValue(Dec(n, decimals));
    hide Value;
  }

  lemma BelowOne(n: nat, k: nat)
    requires n < Pow10(k)
    ensures Value(Dec(n, k)) < 1.0
  {
    RescaleExact(Dec(1, 0), k);
    ValueOrder(n, Pow10(k), k);
    PowersOfZero();
  }

  lemma AtLeastOne(n: nat, k: nat)
    requires n > 0
    ensures Value(Dec(n, 0 - k)) >= 1.0
  {
    RescaleExact(Dec(n, 0 - k), k);
    PowersOfZero();
    ProductAtLeastOne(n, Pow10(k));
    ValueOrder(1, n * Pow10(k), 0);
    ValueOrder(n * Pow10(k), 1, 0);
  }

  lemma ProductAtLeastOne(a: int, b: int)
    requires a >= 1 && b >= 1
    ensures a * b >= 1
  {
  }

  lemma LeadingDigit(s: string)
    requires |s| == 1 && AllDigits(s) && s[0] != '0'
    ensures 1 <= DigitsValue(s) < 10
  {
    assert s[..0] == [];
  }

  /** Math.abs (x) < 1.0 */
  ghost predicate IsSmall(l: Literal)
    requires IsLiteral(l)
  {
    RealAbs(LiteralValue(l)) < 1.0
  }

  /** With an exponent, the sign of the exponent says whether the number lies strictly between -1 and 1. */
  lemma SmallByExponent(l: Literal)
    requires IsNumberText(l) && l.exp.Exponent?
    ensures IsSmall(l) <==> l.exp.sign == Minus
  {
    var all := l.whole + l.frac;
    var e: nat := DigitsValue(l.exp.digits);
    LeadingDigit(l.whole);
    DigitsValueConcat(l.whole, l.frac);
    DigitsValueBound(all);
    hide Value, Pow10, DigitsValue, LiteralValue;
    LiteralAsDec(l);
    var n := DigitsValue(all);
    ValueMagnitude(l.sign, n, |l.frac| - Power(l));
    if l.exp.sign == Minus {
      Pow10Grows(|all|, |l.frac| + e);
      BelowOne(n, |l.frac| + e);
    } else {
      ProductAtLeastOne(DigitsValue(l.whole), Pow10(|l.frac|));
      AtLeastOne(n, e - |l.frac|);
    }
  }

  // ----- the expansion keeps the number ------------------------------------

  /** The expanded number: the point moved to where the exponent says. */
  ghost function Expanded(l: Literal): Literal
    requires IsNumberText(l)
  {
    if l.exp.NoExponent? then l
    else
      var e := DigitsValue(l.exp.digits);
      if l.exp.sign == Minus then Literal(l.sign, "0", true, Zeros(e - 1) + (l.whole + l.frac), NoExponent)
      else Literal(l.sign, (l.whole + l.frac) + Zeros(e - |l.frac|), false, [], NoExponent)
  }

  lemma ExpandedValue(l: Literal)
    requires IsNumberText(l)
    ensures IsLiteral(Expanded(l)) && Expanded(l).exp.NoExponent?
    ensures LiteralValue(Expanded(l)) == LiteralValue(l)
  {
    if l.exp.Exponent? {
      var p, all, e := Expanded(l), l.whole + l.frac, DigitsValue(l.exp.digits);
      LiteralAsDec(l);
      LiteralAsDec(p);
      if l.exp.sign == Minus {
        ExpandedSmall(l);
      } else {
        TrailingZeros(all, e - |l.frac|);
        assert p.whole + p.frac == all + Zeros(e - |l.frac|);
        ExpandedLarge(l.sign, DigitsValue(all), e - |l.frac|);
      }
    }
  }

  lemma ExpandedSmall(l: Literal)
    requires IsNumberText(l) && l.exp.Exponent? && l.exp.sign == Minus
    ensures var p := Expanded(l);
      DigitsValue(p.whole + p.frac) == DigitsValue(l.whole + l.frac) && |p.frac| - Power(p) == |l.frac| - Power(l)
  {
    hide Expanded, DigitsValue, LiteralValue;
    var all, e := l.whole + l.frac, DigitsValue(l.exp.digits);
    ExpandedSmallShape(l);
    var p := Expanded(l);
    assert p.whole + p.frac == Zeros(e) + all;
    LeadingZeros(e, all);
  }

  lemma ExpandedSmallShape(l: Literal)
    requires IsNumberText(l) && l.exp.Exponent? && l.exp.sign == Minus
    ensures var e := DigitsValue(l.exp.digits);
      Expanded(l) == Literal(l.sign, "0", true, Zeros(e - 1) + (l.whole + l.frac), NoExponent)
  {
  }

  lemma ExpandedLarge(sign: Sign, n: nat, k: nat)
    ensures Value(Dec(Signed(sign, n * Pow10(k)), 0)) == Value(Dec(Signed(sign, n), 0 - k))
  {
    hide Value;
    RescaleExact(Dec(Signed(sign, n), 0 - k), k);
    SignedProduct(n, Pow10(k));
  }

  lemma MantissaParts(l: Literal)
    requires IsNumberText(l)
    ensures 'e' !in PlainText(l) && PlainText(l) != []
    ensures PlainText(l)[0] == '-' <==> l.sign == Minus
    ensures WithoutDot(PlainText(l)) == SignText(l.sign) + (l.whole + l.frac)
    ensures Split(PlainText(l), ".") ==
      if l.dot then [SignText(l.sign) + l.whole, l.frac] else [SignText(l.sign) + l.whole]
  {
    hide Split, DigitsValue;
    var front := SignText(l.sign) + l.whole;
    PlainDot(l);
    assert '.' !in front && '.' !in l.frac;
    assert IsDigit(l.whole[0]);
    if l.dot {
      assert PlainText(l) == front + "." + l.frac;
      SplitInTwo(front, ".", l.frac);
    } else {
      assert PlainText(l) == front;
      SplitWhole(front, ".");
    }
  }

  lemma ExpandSmall(l: Literal)
    requires IsNumberText(l) && l.exp.Exponent? && l.exp.sign == Minus
    ensures NumberToString(Render(l), true) == Some(Render(Expanded(l)))
  {
    hide PlainText, Split, ParseInt, DigitsValue, WithoutDot;
    var m, digits, all := PlainText(l), l.exp.digits, l.whole + l.frac;
    var e := DigitsValue(digits);
    MantissaParts(l);
    ParseIntDecimal(Unsigned, digits);
    assert SignText(Unsigned) + digits == digits;
    assert Render(l) == m + "e-" + digits;
    SplitInTwo(m, "e-", digits);
    assert Render(l)[0] == m[0];
    var n := WithoutDot(m);
    assert (if l.sign == Minus then n[1..] else n) == all;
    ExpandedSmallText(l);
    assert JoinedZeros(Some(e)) == Some(Zeros(e - 1));
  }

  lemma ExpandedSmallText(l: Literal)
    requires IsNumberText(l) && l.exp.Exponent? && l.exp.sign == Minus
    ensures Render(Expanded(l)) == (if l.sign == Minus then "-" else "") + "0." + Zeros(DigitsValue(l.exp.digits) - 1)
                                   + (l.whole + l.frac)
  {
    hide DigitsValue;
  }

  lemma ExpandLarge(l: Literal)
    requires IsNumberText(l) && l.exp.Exponent? && l.exp.sign == Plus
    ensures NumberToString(Render(l), false) == Some(Render(Expanded(l)))
  {
    hide PlainText, Split, ParseInt, DigitsValue, WithoutDot;
    var m, digits := PlainText(l), l.exp.digits;
    var e := DigitsValue(digits);
    MantissaParts(l);
    ParseIntDecimal(Plus, digits);
    var tail := SignText(Plus) + digits;
    assert tail == "+" + digits;
    assert Render(l) == m + "e" + tail;
    SplitInTwo(m, "e", tail);
    ExpandedLargeText(l);
    assert JoinedZeros(Some(e - |l.frac| + 1)) == Some(Zeros(e - |l.frac|));
    var front := SignText(l.sign) + l.whole;
    assert l.dot ==> Split(m, ".")[0] + l.frac == front + l.frac;
    assert !l.dot ==> front + "" == front + l.frac;
  }

  lemma ExpandedLargeText(l: Literal)
    requires IsNumberText(l) && l.exp.Exponent? && l.exp.sign == Plus
    ensures Render(Expanded(l)) == (SignText(l.sign) + l.whole) + l.frac + Zeros(DigitsValue(l.exp.digits) - |l.frac|)
  {
    hide DigitsValue, SignText;
  }

  lemma ExpandPlain(l: Literal, small: bool)
    requires IsNumberText(l) && l.exp.NoExponent?
    ensures NumberToString(Render(l), small) == Some(Render(l))
  {
    hide PlainText, Split, ParseInt, DigitsValue, WithoutDot;
    MantissaParts(l);
    assert Render(l) == PlainText(l);
    SplitWhole(Render(l), "e-");
    SplitWhole(Render(l), "e");
  }

  /** Every finite number is written without an exponent, and the text denotes the same number. */
  lemma ExpansionExact(l: Literal) returns (p: Literal)
    requires IsNumberText(l)
    ensures p == Expanded(l) && NumberToString(Render(l), IsSmall(l)) == Some(Render(p))
    ensures IsLiteral(p) && p.exp.NoExponent? && LiteralValue(p) == LiteralValue(l)
  {
    hide *;
    p := Expanded(l);
    ExpandedValue(l);
    if l.exp.NoExponent? {
      ExpandPlain(l, true);
      ExpandPlain(l, false);
      ExpandedPlain(l);
    } else {
      SmallByExponent(l);
      HasSign(l);
      if l.exp.sign == Minus {
        ExpandSmall(l);
      } else {
        ExpandLarge(l);
      }
    }
  }

  lemma ExpandedPlain(l: Literal)
    requires IsNumberText(l) && l.exp.NoExponent?
    ensures Expanded(l) == l
  {
  }

  lemma HasSign(l: Literal)
    requires IsNumberText(l) && l.exp.Exponent?
    ensures l.exp.sign == Minus || l.exp.sign == Plus
  {
  }

  // ----- rounding a number -------------------------------------------------

  lemma PlainShape(p: Literal)
    requires IsLiteral(p) && p.exp.NoExponent? && p.sign != Plus && p.whole != [] && (p.dot <==> p.frac != [])
    ensures Render(p) == Text(p.sign == Minus, p.whole, p.frac)
  {
  }

  lemma ExpandedShape(l: Literal)
    requires IsNumberText(l)
    ensures var p := Expanded(l);
      IsLiteral(p) && p.exp.NoExponent? && p.sign == l.sign && p.whole != [] && (p.dot <==> p.frac != [])
  {
    ExpandedValue(l);
    hide DigitsValue, LiteralValue;
  }

  lemma PlainMagnitude(p: Literal)
    requires IsLiteral(p) && p.exp.NoExponent?
    ensures AllDigits(p.whole + p.frac) && DigitsReal(p.whole + p.frac, |p.frac|) == RealAbs(LiteralValue(p))
  {
    LiteralAsDec(p);
    hide DigitsValue, Value, LiteralValue;
    ValueMagnitude(p.sign, DigitsValue(p.whole + p.frac), |p.frac|);
  }

  /** The expanded text is a plain decimal string of the same sign and magnitude. */
  lemma ExpandedIsPlain(l: Literal)
    requires IsNumberText(l)
    ensures var text := Render(Expanded(l));
      && '.' !in Fraction(text) && IsPlain(text) && (Negative(text) <==> l.sign == Minus)
      && Magnitude(text) == RealAbs(LiteralValue(l))
  {
    hide Text, DigitsValue, LiteralValue, Render, Expanded, DigitsReal, Whole, Fraction, Negative;
    var p := Expanded(l);
    ExpandedShape(l);
    ExpandedValue(l);
    PlainShape(p);
    TextParts(l.sign == Minus, p.whole, p.frac);
    PlainMagnitude(p);
  }

  /** The text shows the number, rounded; in the forms that are promised for plain decimal strings. */
  ghost predicate ShowsRounded(l: Literal, mode: RoundingMode, n: nat, counting: CountingMode, padding: PaddingMode,
                               text: string)
    requires IsNumberText(l) && IsPlain(Render(Expanded(l)))
  {
    && Formats(Render(Expanded(l)), mode, n, counting, padding, text)
    && IsPlain(text)
    && Magnitude(text) == RoundAt(mode, RealAbs(LiteralValue(l)), Places(Render(Expanded(l)), counting, n))
    && (Negative(text) <==> l.sign == Minus && Magnitude(text) != 0.0)
  }

  lemma FormatShowsRounded(l: Literal, mode: RoundingMode, n: nat, counting: CountingMode, padding: PaddingMode,
                           text: string)
    requires IsNumberText(l) && IsPlain(Render(Expanded(l)))
    requires Formats(Render(Expanded(l)), mode, n, counting, padding, text)
    ensures ShowsRounded(l, mode, n, counting, padding, text)
  {
    ExpandedIsPlain(l);
    hide Magnitude, RoundAt, Places, Expanded, Render, LiteralValue, IsPlain, Negative;
  }

  /** decimalToPrecision on the text of a number. */
  method NumberToPrecision(s: string, small: bool, mode: RoundingMode, n: nat, counting: CountingMode,
                           padding: PaddingMode, ghost l: Literal) returns (r: string)
    requires IsNumberText(l) && s == Render(l) && small == IsSmall(l)
    ensures IsPlain(Render(Expanded(l))) && ShowsRounded(l, mode, n, counting, padding, r)
  {
    hide *;
    ghost var p := ExpansionExact(l);
    ExpandedIsPlain(l);
    var str := NumberToString(s, small).value;
    var text := DecimalToPrecision(str, mode, n, counting, padding);
    r := text.value;
    FormatShowsRounded(l, mode, n, counting, padding, r);
  }
}
