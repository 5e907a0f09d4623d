/** Reading, printing and normalising Precise numbers. */
module PreciseText {
  import opened Basics
  import opened Decimals
  import opened StringPrimitives
  import opened PreciseArithmetic
  import opened PreciseReading

  // ----- what a numeral means ----------------------------------------------

  datatype Exponent = NoExponent | Exponent(mark: char, sign: Sign, digits: string)

  /** The written parts of a decimal number: sign, whole part, fraction, exponent. */
  datatype Literal = Literal(sign: Sign, whole: string, dot: bool, frac: string, exp: Exponent)

  ghost predicate IsLiteral(l: Literal) {
    && AllDigits(l.whole) && AllDigits(l.frac)
    && (!l.dot ==> l.frac == [])
    && (l.whole + l.frac == [] ==> l.sign == Unsigned)
    && (l.exp.Exponent? ==> l.exp.mark in "eE" && l.exp.digits != [] && AllDigits(l.exp.digits))
  }

  function PlainText(l: Literal): string {
    SignText(l.sign) + l.whole + (if l.dot then "." + l.frac else "")
  }

  function Render(l: Literal): string {
    PlainText(l) + if l.exp.NoExponent? then "" else [l.exp.mark] + SignText(l.exp.sign) + l.exp.digits
  }

  ghost function Power(l: Literal): int
    requires IsLiteral(l)
  {
    if l.exp.NoExponent? then 0 else Signed(l.exp.sign, DigitsValue(l.exp.digits))
  }

  /** sign (whole + frac / 10^|frac|) 10^power */
  ghost function LiteralValue(l: Literal): real
    requires IsLiteral(l)
  {
    var magnitude := DigitsValue(l.whole) as real + DigitsValue(l.frac) as real * Scale(-|l.frac|);
    (if l.sign == Minus then -magnitude else magnitude) * Scale(Power(l))
  }

  // ----- reading a numeral -------------------------------------------------

  lemma NoCapitals(s: string)
    requires forall i :: 0 <= i < |s| ==> !('A' <= s[i] <= 'Z')
    ensures Lower(s) == s
  {
  }

  lemma NumericLower(s: string)
    requires IsNumeric(s)
    ensures Lower(s) == s
  {
    NoCapitals(s);
  }

  lemma MarkLower(c: char)
    requires c in "eE"
    ensures Lower([c]) == "e"
  {
  }

  lemma LowerConcat(s: string, t: string)
    ensures Lower(s + t) == Lower(s) + Lower(t)
  {
  }

  /** Digits, signs and points: characters that have no other case. */
  ghost predicate IsNumeric(s: string) {
    forall i :: 0 <= i < |s| ==> IsDigit(s[i]) || s[i] in "+-."
  }

  lemma PlainIsNumeric(l: Literal)
    requires IsLiteral(l)
    ensures IsNumeric(PlainText(l)) && Lower(PlainText(l)) == PlainText(l)
    ensures l.exp.Exponent? ==> IsNumeric(SignText(l.exp.sign) + l.exp.digits)
  {
    NoCapitals(PlainText(l));
  }

  function LiteralMantissa(l: Literal): Mantissa {
    Mantissa("", Decimal(l.sign, l.whole + l.frac), "", if l.dot then Some(|SignText(l.sign) + l.whole|) else None)
  }

  function LiteralTail(l: Literal): Tail {
    if l.exp.NoExponent? then NoTail else Tail("", l.exp.sign, false, l.exp.digits, "")
  }

  lemma LiteralMantissaIs(l: Literal)
    requires IsLiteral(l)
    ensures IsMantissa(LiteralMantissa(l)) && MantissaText(LiteralMantissa(l)) == PlainText(l)
    ensures MantissaDecimals(LiteralMantissa(l)) == |l.frac|
  {
    var m, front := LiteralMantissa(l), SignText(l.sign) + l.whole;
    assert Bare(m) == front + l.frac;
    assert front + "" == front;
    hide SignText;
    assert l.dot ==> Bare(m)[..|front|] == front && Bare(m)[|front|..] == l.frac;
  }

  lemma PlainDot(l: Literal)
    requires IsLiteral(l)
    ensures WithoutDot(PlainText(l)) == SignText(l.sign) + (l.whole + l.frac)
  {
    hide *;
    LiteralMantissaIs(l);
    PointFound(LiteralMantissa(l));
    LiteralBare(l);
  }

  lemma LiteralBare(l: Literal)
    ensures Bare(LiteralMantissa(l)) == SignText(l.sign) + (l.whole + l.frac)
  {
    hide SignText;
  }

  lemma LiteralTailIs(l: Literal)
    requires IsLiteral(l)
    ensures IsTail(LiteralTail(l)) && TailValue(LiteralTail(l)) == Power(l)
    ensures l.exp.Exponent? ==> TailText(LiteralTail(l)) == "e" + (SignText(l.exp.sign) + l.exp.digits)
  {
    if l.exp.Exponent? {
      DecimalValue(l.exp.digits);
      hide RadixValue, DigitsValue, SignText, IsDigitIn;
      assert "" + (SignText(l.exp.sign) + ("" + l.exp.digits)) + "" == SignText(l.exp.sign) + l.exp.digits;
    }
  }

  lemma LiteralLowered(l: Literal)
    requires IsLiteral(l)
    ensures l.exp.NoExponent? ==> Lower(Render(l)) == PlainText(l)
    ensures l.exp.Exponent? ==> Lower(Render(l)) == PlainText(l) + ("e" + (SignText(l.exp.sign) + l.exp.digits))
  {
    hide PlainText, SignText, Lower;
    PlainIsNumeric(l);
    if l.exp.Exponent? {
      var tail := SignText(l.exp.sign) + l.exp.digits;
      LowerConcat(PlainText(l), [l.exp.mark] + tail);
      LowerConcat([l.exp.mark], tail);
      NumericLower(tail);
      MarkLower(l.exp.mark);
      assert Render(l) == PlainText(l) + ([l.exp.mark] + tail);
    } else {
      assert Render(l) == PlainText(l);
    }
  }

  /** A written number has an accepted shape. */
  lemma LiteralAccepted(l: Literal)
    requires IsLiteral(l)
    ensures Accepted(Render(l), LiteralMantissa(l), LiteralTail(l))
  {
    LiteralMantissaIs(l);
    LiteralTailIs(l);
    LiteralLowered(l);
    hide LiteralMantissa, PlainText, Render, IsMantissa, IsTail, MantissaText, SignText, TailNumber;
    assert PlainText(l) + "" == PlainText(l);
  }

  lemma ParseOfLiteral(l: Literal)
    requires IsLiteral(l)
    ensures AllDigits(l.whole + l.frac)
    ensures Parse(Render(l)) == Number(Dec(Signed(l.sign, DigitsValue(l.whole + l.frac)), |l.frac| - Power(l)))
  {
    hide *;
    LiteralCore(l);
    LiteralAccepted(l);
    LiteralMantissaIs(l);
    LiteralTailIs(l);
    ParseReads(Render(l), LiteralMantissa(l), LiteralTail(l));
  }

  lemma LiteralCore(l: Literal)
    requires IsLiteral(l)
    ensures AllDigits(l.whole + l.frac) && IsCore(LiteralMantissa(l).core)
    ensures CoreValue(LiteralMantissa(l).core) == Signed(l.sign, DigitsValue(l.whole + l.frac))
  {
  }

  /** Every written number is accepted and read as exactly the value it denotes. */
  lemma ParseExact(l: Literal)
    requires IsLiteral(l)
    ensures Parse(Render(l)).Number? && Value(Parse(Render(l)).dec) == LiteralValue(l)
  {
    hide *;
    ParseOfLiteral(l);
    LiteralAsDec(l);
  }

  lemma LiteralAsDec(l: Literal)
    requires IsLiteral(l)
    ensures AllDigits(l.whole + l.frac)
    ensures LiteralValue(l) == Value(Dec(Signed(l.sign, DigitsValue(l.whole + l.frac)), |l.frac| - Power(l)))
  {
    hide Scale, Pow10, DigitsValue, Power;
    DigitsValueConcat(l.whole, l.frac);
    MagnitudeValue(DigitsValue(l.whole), DigitsValue(l.frac), |l.frac|, Power(l), DigitsValue(l.whole + l.frac));
  }

  lemma MagnitudeValue(w: nat, f: nat, k: int, power: int, n: nat)
    requires k >= 0 && n == w * Pow10(k) + f
    ensures n as real * Scale(-(k - power)) == (w as real + f as real * Scale(-k)) * Scale(power)
    ensures (0 - n) as real * Scale(-(k - power)) == -(w as real + f as real * Scale(-k)) * Scale(power)
  {
    hide Scale, Pow10;
    ScaleSum(power, -k);
    ScaleSum(k, -k);
    ScaleIsPow10(k);
    PowersOfZero();
    assert k + -k == 0 && power + -k == -(k - power);
    ProductToReal(w, Pow10(k));
    MagnitudeRegroup(w as real, f as real, Pow10(k) as real, Scale(-k), Scale(power));
  }

  lemma MagnitudeRegroup(w: real, f: real, p: real, s: real, t: real)
    requires p * s == 1.0
    ensures (w * p + f) * (t * s) == (w + f * s) * t
    ensures -(w * p + f) * (t * s) == -(w + f * s) * t
  {
    assert (w * p + f) * s == w + f * s by {
      TimesAssociates(w, p, s);
    }
    TimesAssociates(w * p + f, s, t);
    assert t * s == s * t;
    assert -(w * p + f) * (t * s) == -((w * p + f) * (t * s));
  }

  // ----- normal form -------------------------------------------------------

  ghost predicate IsReduced(d: Dec) {
    if d.integer == 0 then d.decimals == 0 else d.integer % 10 != 0
  }

  /** Every trailing zero of the integer moved into the decimals; zero has no decimals. */
  function Reduced(d: Dec): (r: Dec)
    ensures IsReduced(r)
    decreases Abs(d.integer)
  {
    if d.integer == 0 then Dec(0, 0)
    else if d.integer % 10 == 0 then Reduced(Dec(d.integer / 10, d.decimals - 1))
    else d
  }

  lemma {:induction false} ReducedExact(d: Dec)
    ensures Value(Reduced(d)) == Value(d)
    decreases Abs(d.integer)
  {
    hide Value;
    if d.integer == 0 {
      SignOfValue(d);
      SignOfValue(Dec(0, 0));
    } else if d.integer % 10 == 0 {
      var d' := Dec(d.integer / 10, d.decimals - 1);
      ReducedExact(d');
      TenthExact(d);
    }
  }

  lemma TenthExact(d: Dec)
    requires d.integer % 10 == 0
    ensures Value(Dec(d.integer / 10, d.decimals - 1)) == Value(d)
  {
    RescaleExact(Dec(d.integer / 10, d.decimals - 1), 1);
    hide Value;
    assert Pow10(1) == 10 * Pow10(0);
    assert d.integer / 10 * 10 == d.integer;
  }

  lemma DivisibleAtSmallerScale(x: Dec, y: Dec)
    requires x.decimals < y.decimals && Value(x) == Value(y)
    ensures y.integer % 10 == 0
    ensures y.integer == 0 ==> x.integer == 0
  {
    hide Value;
    SignOfValue(x);
    SignOfValue(y);
    var e := y.decimals - x.decimals;
    RescaleExact(x, e);
    SameScale(x.integer * Pow10(e), y.integer, y.decimals);
    assert x.integer * (10 * Pow10(e - 1)) == 10 * (x.integer * Pow10(e - 1));
  }

  lemma SameScale(a: int, b: int, decimals: int)
    requires Value(Dec(a, decimals)) == Value(Dec(b, decimals))
    ensures a == b
  {
    hide Value;
    ValueOrder(a, b, decimals);
    ValueOrder(b, a, decimals);
  }

  /** Two numbers have the same normal form exactly when they are equal. */
  lemma ReducedUnique(x: Dec, y: Dec)
    ensures Reduced(x) == Reduced(y) <==> Value(x) == Value(y)
  {
    hide Value, Reduced;
    ReducedExact(x);
    ReducedExact(y);
    if Value(x) == Value(y) {
      var a, b := Reduced(x), Reduced(y);
      if a.decimals < b.decimals {
        DivisibleAtSmallerScale(a, b);
      } else if b.decimals < a.decimals {
        DivisibleAtSmallerScale(b, a);
      } else {
        SameScale(a.integer, b.integer, a.decimals);
      }
    }
  }

  // ----- printing ----------------------------------------------------------

  /** padStart(decimals, '0') */
  function Padded(s: string, length: int): (r: string)
    ensures |r| == Max(|s|, length)
  {
    if length > |s| then Zeros(length - |s|) + s else s
  }

  function Splice(s: string, index: nat, item: string): string {
    if index >= |s| then s + item else s[..index] + item + s[index..]
  }

  /** The text toString returns. */
  function Print(d: Dec): string {
    var r := Reduced(d);
    var sign := if r.integer < 0 then "-" else "";
    var digits := Padded(Numeral(Abs(r.integer)), r.decimals);
    var index := |digits| - r.decimals;
    var item :=
      if index == 0 then "0."
      else if r.decimals < 0 then Zeros(-r.decimals)
      else if r.decimals == 0 then ""
      else ".";
    sign + Splice(digits, index, item)
  }

  /** Canonical text: no plus sign, no exponent, no superfluous zero on either side, no -0. */
  ghost predicate IsCanonical(l: Literal) {
    && IsLiteral(l)
    && l.exp.NoExponent? && l.sign != Plus
    && l.whole != [] && (l.whole[0] == '0' ==> l.whole == "0")
    && (l.dot <==> l.frac != [])
    && (l.frac != [] ==> l.frac[|l.frac| - 1] != '0')
    && (l.whole == "0" && l.frac == [] ==> l.sign == Unsigned)
  }

  /** Digits with a decimal point placed `decimals` digits from the right. */
  ghost function Placed(negative: bool, digits: string, decimals: int): Literal
    requires |digits| >= decimals
  {
    var index := |digits| - decimals;
    var sign := if negative then Minus else Unsigned;
    if index == 0 then Literal(sign, "0", true, digits, NoExponent)
    else if decimals <= 0 then Literal(sign, digits + Zeros(-decimals), false, "", NoExponent)
    else Literal(sign, digits[..index], true, digits[index..], NoExponent)
  }

  ghost function PrintedLiteral(d: Dec): Literal {
    var r := Reduced(d);
    Placed(r.integer < 0, Padded(Numeral(Abs(r.integer)), r.decimals), r.decimals)
  }

  lemma PrintShape(d: Dec)
    ensures Print(d) == Render(PrintedLiteral(d))
  {
    hide Reduced, Numeral, Zeros, Padded, Placed, Splice, Render;
    var r := Reduced(d);
    PlacedShape(r.integer < 0, Padded(Numeral(Abs(r.integer)), r.decimals), r.decimals);
  }

  lemma PlacedShape(negative: bool, digits: string, decimals: int)
    requires |digits| >= decimals
    ensures var index := |digits| - decimals;
      Render(Placed(negative, digits, decimals)) ==
        (if negative then "-" else "")
        + Splice(digits, index, if index == 0 then "0." else if decimals < 0 then Zeros(-decimals)
                                else if decimals == 0 then "" else ".")
  {
    hide Zeros;
    var index := |digits| - decimals;
    if index == 0 {
      assert Splice(digits, index, "0.") == "0" + ("." + digits);
    } else if decimals <= 0 {
      assert decimals == 0 ==> digits + Zeros(0) == digits;
    } else {
      assert Splice(digits, index, ".") == digits[..index] + ("." + digits[index..]);
    }
  }

  lemma PaddedNumeral(n: nat, decimals: int)
    ensures var digits := Padded(Numeral(n), decimals);
      && digits != [] && AllDigits(digits) && DigitsValue(digits) == n
      && (digits[|digits| - 1] == '0' <==> n % 10 == 0)
      && (|digits| > decimals && n > 0 ==> digits[0] != '0')
  {
    NumeralValue(n);
    NumeralLastDigit(n);
    if n > 0 {
      NumeralHasNoLeadingZero(n);
    }
    hide Numeral, DigitsValue;
    if decimals > |Numeral(n)| {
      LeadingZeros(decimals - |Numeral(n)|, Numeral(n));
    }
  }

  /** All digits behind the point. */
  lemma FractionCanonical(sign: Sign, digits: string)
    requires digits != [] && AllDigits(digits) && digits[|digits| - 1] != '0' && sign != Plus
    ensures IsCanonical(Literal(sign, "0", true, digits, NoExponent))
  {
  }

  /** All digits in front of the point. */
  lemma IntegerCanonical(sign: Sign, digits: string, zeros: nat)
    requires digits != [] && AllDigits(digits) && digits[0] != '0' && sign != Plus
    ensures IsCanonical(Literal(sign, digits + Zeros(zeros), false, "", NoExponent))
  {
    var whole := digits + Zeros(zeros);
    assert whole[0] == digits[0];
    assert forall i :: 0 <= i < |whole| ==> IsDigit(whole[i]);
  }

  /** Digits on both sides of the point. */
  lemma SplitCanonical(sign: Sign, digits: string, index: nat)
    requires 0 < index < |digits| && AllDigits(digits) && sign != Plus
    requires digits[0] != '0' && digits[|digits| - 1] != '0'
    ensures IsCanonical(Literal(sign, digits[..index], true, digits[index..], NoExponent))
  {
    var whole, frac := digits[..index], digits[index..];
    assert whole[0] == digits[0] && frac[|frac| - 1] == digits[|digits| - 1];
  }

  lemma PlacedCanonical(negative: bool, digits: string, decimals: int)
    requires |digits| >= decimals && digits != [] && AllDigits(digits)
    requires decimals > 0 ==> digits[|digits| - 1] != '0'
    requires |digits| > decimals ==> digits[0] != '0'
    ensures IsCanonical(Placed(negative, digits, decimals))
  {
    hide IsCanonical, AllDigits;
    var sign := if negative then Minus else Unsigned;
    if |digits| == decimals {
      FractionCanonical(sign, digits);
    } else if decimals <= 0 {
      IntegerCanonical(sign, digits, -decimals);
    } else {
      SplitCanonical(sign, digits, |digits| - decimals);
    }
  }

  lemma PrintCanonical(d: Dec)
    ensures IsCanonical(PrintedLiteral(d))
  {
    var r := Reduced(d);
    hide Reduced;
    var n := Abs(r.integer);
    PaddedNumeral(n, r.decimals);
    if n == 0 {
      assert Padded(Numeral(0), 0) + Zeros(0) == "0";
    } else {
      hide Numeral, Padded, IsCanonical, Placed;
      PlacedCanonical(r.integer < 0, Padded(Numeral(n), r.decimals), r.decimals);
    }
  }

  /** What the placed digits denote. */
  lemma PlacedDigits(negative: bool, digits: string, decimals: int)
    requires |digits| >= decimals && AllDigits(digits)
    ensures var l := Placed(negative, digits, decimals);
      && AllDigits(l.whole + l.frac)
      && DigitsValue(l.whole + l.frac) == DigitsValue(digits) * Pow10(if decimals < 0 then -decimals else 0)
      && |l.frac| == (if decimals < 0 then 0 else decimals)
  {
    var index := |digits| - decimals;
    PowersOfZero();
    if index == 0 {
      DigitsValueConcat("0", digits);
      assert DigitsValue("0") == 0;
    } else {
      hide DigitsValue, Pow10;
      if decimals <= 0 {
        TrailingZeros(digits, -decimals);
        assert digits + Zeros(-decimals) + "" == digits + Zeros(-decimals);
      } else {
        assert digits[..index] + digits[index..] == digits;
      }
    }
  }

  /** Reading a printed number gives its normal form, with no decimals below zero. */
  lemma ParsePrint(d: Dec)
    ensures var r := Reduced(d);
      Parse(Print(d)) == Number(if r.decimals < 0 then Dec(r.integer * Pow10(-r.decimals), 0) else r)
  {
    var r := Reduced(d);
    var digits := Padded(Numeral(Abs(r.integer)), r.decimals);
    PrintShape(d);
    PrintCanonical(d);
    PaddedNumeral(Abs(r.integer), r.decimals);
    hide Parse, Print, Render, Pow10, DigitsValue, Reduced, Padded, Numeral;
    PowersOfZero();
    PlacedDigits(r.integer < 0, digits, r.decimals);
    ParseOfLiteral(PrintedLiteral(d));
    assert Power(PrintedLiteral(d)) == 0;
    SignedProduct(r.integer, Pow10(if r.decimals < 0 then -r.decimals else 0));
  }

  lemma SignedProduct(n: int, p: nat)
    ensures Signed(if n < 0 then Minus else Unsigned, Abs(n) * p) == n * p
  {
    if n < 0 {
      assert -n * p == -(n * p);
    }
  }

  lemma PrintRoundTrip(d: Dec)
    ensures Parse(Print(d)).Number? && Value(Parse(Print(d)).dec) == Value(d)
  {
    hide Value, Parse, Print, Reduced, Pow10;
    ParsePrint(d);
    ReducedExact(d);
    var r := Reduced(d);
    if r.decimals < 0 {
      RescaleExact(r, -r.decimals);
    }
  }

  lemma PrintDependsOnNormalForm(a: Dec, b: Dec)
    requires Reduced(a) == Reduced(b)
    ensures Print(a) == Print(b)
  {
    hide Reduced, Numeral, Padded, Splice, Abs, Zeros;
  }

  /** Two numbers print alike exactly when they are equal. */
  lemma PrintUnique(a: Dec, b: Dec)
    ensures Print(a) == Print(b) <==> Value(a) == Value(b)
  {
    hide *;
    PrintRoundTrip(a);
    PrintRoundTrip(b);
    ReducedUnique(a, b);
    if Value(a) == Value(b) {
      PrintDependsOnNormalForm(a, b);
    }
  }

  // ----- canonical text is a fixed point -----------------------------------

  lemma {:induction false} NumeralOfDigits(s: string)
    requires s != [] && AllDigits(s) && s[0] != '0'
    ensures Numeral(DigitsValue(s)) == s && DigitsValue(s) > 0
  {
    var front, last := s[..|s| - 1], s[|s| - 1];
    assert s == front + [last] && DigitChar(DigitOf(last)) == last;
    if front == [] {
      assert DigitsValue(front) == 0;
    } else {
      NumeralOfDigits(front);
      var n := DigitsValue(front);
      assert (10 * n + DigitOf(last)) / 10 == n && (10 * n + DigitOf(last)) % 10 == DigitOf(last);
    }
  }

  lemma {:induction false} PaddedDigits(s: string)
    requires s != [] && AllDigits(s)
    ensures |Numeral(DigitsValue(s))| <= |s| && Padded(Numeral(DigitsValue(s)), |s|) == s
  {
    if s[0] != '0' {
      NumeralOfDigits(s);
    } else if |s| == 1 {
      assert s == "0";
      ZerosValue(s);
    } else {
      PaddedDigits(s[1..]);
      LeadingZeros(1, s[1..]);
      assert s == Zeros(1) + s[1..];
      hide Numeral, DigitsValue;
      PadOneMore(Numeral(DigitsValue(s[1..])), |s| - 1);
    }
  }

  lemma PadOneMore(s: string, k: nat)
    requires |s| <= k
    ensures Padded(s, k + 1) == Zeros(1) + Padded(s, k)
  {
    assert Zeros(k + 1 - |s|) == Zeros(1) + Zeros(k - |s|);
  }

  lemma PadNothing(s: string, k: int)
    requires k <= |s|
    ensures Padded(s, k) == s
  {
  }

  /** An integer with k zeros cut off prints its own digits and those zeros. */
  lemma {:induction false} PrintedInteger(n: nat, sign: Sign, k: int)
    requires n > 0 && k >= 0 && sign != Plus
    ensures PrintedLiteral(Dec(Signed(sign, n), -k)) == Literal(sign, Numeral(n) + Zeros(k), false, "", NoExponent)
    decreases n
  {
    hide Reduced, Numeral, Zeros, Padded;
    var d := Dec(Signed(sign, n), -k);
    if n % 10 == 0 {
      TenthOfSigned(sign, n);
      PrintedInteger(n / 10, sign, k + 1);
      ReducedTenth(d);
      ZeroMoves(n, k);
    } else {
      ReducedSelf(sign, n, -k);
      PadNothing(Numeral(n), -k);
    }
  }

  lemma ReducedTenth(d: Dec)
    requires d.integer % 10 == 0 && d.integer != 0
    ensures Reduced(d) == Reduced(Dec(d.integer / 10, d.decimals - 1))
  {
  }

  lemma ReducedSelf(sign: Sign, n: nat, decimals: int)
    requires n % 10 != 0
    ensures Reduced(Dec(Signed(sign, n), decimals)) == Dec(Signed(sign, n), decimals)
  {
  }

  lemma ZeroMoves(n: nat, k: nat)
    requires n % 10 == 0 && n > 0
    ensures Numeral(n / 10) + Zeros(k + 1) == Numeral(n) + Zeros(k)
  {
    assert Numeral(n) == Numeral(n / 10) + "0";
    hide Numeral;
    assert Zeros(k + 1) == "0" + Zeros(k);
  }

  lemma TenthOfSigned(sign: Sign, n: nat)
    requires n % 10 == 0
    ensures Signed(sign, n) % 10 == 0 && Signed(sign, n) / 10 == Signed(sign, n / 10)
  {
  }

  lemma PrintFraction(sign: Sign, digits: string, decimals: nat)
    requires 0 < decimals <= |digits| && AllDigits(digits) && digits[|digits| - 1] != '0' && sign != Plus
    ensures Reduced(Dec(Signed(sign, DigitsValue(digits)), decimals)) == Dec(Signed(sign, DigitsValue(digits)), decimals)
    ensures DigitsValue(digits) > 0
  {
    var n := DigitsValue(digits);
    assert n % 10 == DigitOf(digits[|digits| - 1]) != 0;
  }

  /** Reading canonical text and printing the result gives the text back. */
  lemma ParseThenPrint(l: Literal)
    requires IsCanonical(l)
    ensures Parse(Render(l)).Number? && Print(Parse(Render(l)).dec) == Render(l)
  {
    ParseOfLiteral(l);
    var all := l.whole + l.frac;
    var d := Dec(Signed(l.sign, DigitsValue(all)), |l.frac|);
    hide Reduced, Numeral, DigitsValue, Padded, Print, Parse, Render;
    PrintShape(d);
    if l.frac == [] {
      assert all == l.whole;
      CanonicalInteger(l);
    } else {
      CanonicalFraction(l);
    }
  }

  lemma CanonicalInteger(l: Literal)
    requires IsCanonical(l) && l.frac == []
    ensures PrintedLiteral(Dec(Signed(l.sign, DigitsValue(l.whole)), 0)) == l
  {
    if l.whole == "0" {
      PrintedZero();
    } else {
      CanonicalDigits(l);
    }
  }

  lemma CanonicalDigits(l: Literal)
    requires IsCanonical(l) && l.frac == [] && l.whole != "0"
    ensures AllDigits(l.whole) && PrintedLiteral(Dec(Signed(l.sign, DigitsValue(l.whole)), 0)) == l
  {
    hide PrintedLiteral, DigitsValue, Numeral;
    NumeralOfDigits(l.whole);
    assert l.whole + Zeros(0) == l.whole;
    PrintedInteger(DigitsValue(l.whole), l.sign, 0);
  }

  lemma PrintedZero()
    ensures DigitsValue("0") == 0 && PrintedLiteral(Dec(0, 0)) == Literal(Unsigned, "0", false, "", NoExponent)
  {
    ZerosValue("0");
    assert Zeros(0) == "" && "0" + "" == "0";
  }

  lemma CanonicalFraction(l: Literal)
    requires IsCanonical(l) && l.frac != []
    ensures AllDigits(l.whole + l.frac)
    ensures PrintedLiteral(Dec(Signed(l.sign, DigitsValue(l.whole + l.frac)), |l.frac|)) == l
  {
    var all := l.whole + l.frac;
    hide Reduced, Numeral, DigitsValue, Padded, Zeros;
    PrintFraction(l.sign, all, |l.frac|);
    if l.whole == "0" {
      LeadingZeros(1, l.frac);
      assert Zeros(1) == "0";
      PaddedDigits(l.frac);
    } else {
      NumeralOfDigits(all);
      PadNothing(all, |l.frac|);
      assert all[..|l.whole|] == l.whole && all[|l.whole|..] == l.frac;
    }
  }

  // ----- which texts are accepted ------------------------------------------

  /** What an accepted text may have that a written number has not: white space around the integer, a radix prefix, a
      sign right behind a leading point, and an exponent with white space, a radix prefix or anything behind it. */
  predicate IsExtra(m: Mantissa, x: Tail) {
    || m.before + m.after != ""
    || m.core.Prefixed?
    || (m.core.sign != Unsigned && m.point == Some(0))
    || (x.Tail? && (x.space != "" || x.hex || x.rest != ""))
  }

  lemma LowerOfNumeric(s: string)
    requires IsNumeric(Lower(s))
    ensures Lower(s) == s
  {
    forall i | 0 <= i < |s| ensures Lower(s)[i] == s[i] {
      var c := Lower(s)[i];
      assert IsDigit(c) || c in "+-.";
    }
  }

  lemma LowerSlice(s: string, i: nat, j: nat)
    requires i <= j <= |s|
    ensures Lower(s[i..j]) == Lower(s)[i..j]
  {
  }

  lemma StrictMantissa(m: Mantissa) returns (l: Literal)
    requires IsMantissa(m) && !IsExtra(m, NoTail)
    ensures IsLiteral(l) && l.exp.NoExponent? && PlainText(l) == MantissaText(m)
  {
    var sign, digits := m.core.sign, m.core.digits;
    assert Bare(m) == SignText(sign) + digits;
    if m.point.None? {
      l := Literal(sign, digits, false, "", NoExponent);
    } else {
      l := SplitAtPoint(sign, digits, m.point.value);
    }
  }

  lemma SignLength(sign: Sign)
    ensures |SignText(sign)| == if sign == Unsigned then 0 else 1
  {
  }

  lemma SplitAtPoint(sign: Sign, digits: string, point: nat) returns (l: Literal)
    requires AllDigits(digits) && (digits == [] ==> sign == Unsigned)
    requires point <= |SignText(sign) + digits| && (point == 0 ==> sign == Unsigned)
    ensures var bare := SignText(sign) + digits;
      IsLiteral(l) && l.exp.NoExponent? && PlainText(l) == bare[..point] + "." + bare[point..]
  {
    hide SignText, IsDigit;
    SignLength(sign);
    var p := point - |SignText(sign)|;
    l := Literal(sign, digits[..p], true, digits[p..], NoExponent);
    var bare := SignText(sign) + digits;
    assert digits == digits[..p] + digits[p..];
    assert bare[..point] == SignText(sign) + digits[..p] && bare[point..] == digits[p..];
  }

  /** The front of a text whose lower case is numeric. */
  lemma NumericFront(text: string, front: string, s: string)
    requires IsNumeric(front) && Lower(text) == front + s
    ensures |front| <= |text| && text[..|front|] == front && Lower(text)[|front|..] == s
  {
    hide IsNumeric;
    var n := |front|;
    LowerSlice(text, 0, n);
    assert Lower(text)[..n] == front && text[0..n] == text[..n];
    LowerOfNumeric(text[..n]);
  }

  /** An accepted text without extras is a written number. */
  lemma StrictIsLiteral(text: string, m: Mantissa, x: Tail) returns (l: Literal)
    requires Accepted(text, m, x) && !IsExtra(m, x)
    ensures IsLiteral(l) && Render(l) == text
  {
    hide IsMantissa, IsTail, PlainText, MantissaText, Lower, IsLiteral, Render;
    l := StrictMantissa(m);
    PlainIsNumeric(l);
    NumericFront(text, PlainText(l), TailText(x));
    if x.NoTail? {
      assert text[..|PlainText(l)|] == text;
      RenderPlain(l);
    } else {
      StrictTail(text, |PlainText(l)|, x);
      l := WithExponent(l, text[|PlainText(l)|], x.sign, x.digits, text);
    }
  }

  lemma RenderPlain(l: Literal)
    requires l.exp.NoExponent?
    ensures Render(l) == PlainText(l)
  {
  }

  lemma WithExponent(l: Literal, mark: char, sign: Sign, digits: string, text: string) returns (r: Literal)
    requires IsLiteral(l) && l.exp.NoExponent? && mark in "eE" && digits != [] && AllDigits(digits)
    requires |PlainText(l)| < |text| && text[..|PlainText(l)|] == PlainText(l) && text[|PlainText(l)|] == mark
    requires text[|PlainText(l)| + 1..] == SignText(sign) + digits
    ensures IsLiteral(r) && Render(r) == text
  {
    hide PlainText, SignText;
    r := l.(exp := Exponent(mark, sign, digits));
    PlainIgnoresExponent(r);
    assert l == r.(exp := NoExponent);
    CutAround(text, |PlainText(l)|);
    RenderExponent(r);
  }

  lemma CutAround(text: string, n: nat)
    requires n < |text|
    ensures text == text[..n] + [text[n]] + text[n + 1..]
  {
  }

  lemma RenderExponent(l: Literal)
    requires l.exp.Exponent?
    ensures Render(l) == PlainText(l) + [l.exp.mark] + (SignText(l.exp.sign) + l.exp.digits)
  {
    hide PlainText, SignText;
  }

  lemma PlainIgnoresExponent(l: Literal)
    ensures PlainText(l.(exp := NoExponent)) == PlainText(l)
  {
  }

  lemma StrictTail(text: string, n: nat, x: Tail)
    requires x.Tail? && IsTail(x) && x.space == "" && !x.hex && x.rest == "" && n <= |text|
    requires Lower(text)[n..] == TailText(x)
    ensures n < |text| && text[n] in "eE" && x.digits != [] && AllDigits(x.digits) && text[n + 1..] == SignText(x.sign) + x.digits
  {
    DecimalValue(x.digits);
    hide IsDigitIn, RadixValue, DigitsValue;
    var tail := SignText(x.sign) + x.digits;
    assert x.space + TailNumber(x) + x.rest == tail;
    SignedIsNumeric(x.sign, x.digits);
    hide SignText, IsNumeric, LowerChar;
    BehindMark(text, n, tail);
  }

  lemma SignedIsNumeric(sign: Sign, digits: string)
    requires AllDigits(digits)
    ensures IsNumeric(SignText(sign) + digits)
  {
  }

  lemma BehindMark(text: string, n: nat, tail: string)
    requires n <= |text| && Lower(text)[n..] == "e" + tail && IsNumeric(tail)
    ensures n < |text| && text[n] in "eE" && text[n + 1..] == tail
  {
    hide IsNumeric;
    assert Lower(text)[n..][0] == 'e' && Lower(text)[n..][1..] == tail;
    LowerSlice(text, n + 1, |text|);
    assert text[n + 1..] == text[n + 1..|text|] && Lower(text)[n + 1..] == Lower(text)[n + 1..|text|];
    LowerOfNumeric(text[n + 1..]);
  }

  /** Two texts that are cut in front of their first mark agree in both parts. */
  lemma SameCut(a: string, s: string, b: string, t: string)
    requires a + s == b + t && 'e' !in a && 'e' !in b
    requires (s == [] || s[0] == 'e') && (t == [] || t[0] == 'e')
    ensures a == b && s == t
  {
    var all := a + s;
    assert s != [] ==> all[|a|] == 'e';
    assert t != [] ==> all[|b|] == 'e';
    assert forall i :: 0 <= i < |a| ==> all[i] == a[i];
    assert forall i :: 0 <= i < |b| ==> all[i] == b[i];
    assert |a| == |b|;
    assert all[..|a|] == a && all[..|a|] == b;
  }

  lemma NumericMantissa(m: Mantissa)
    requires IsMantissa(m) && IsNumeric(MantissaText(m))
    ensures m.before == "" && m.after == "" && m.core.Decimal?
  {
    BareIsNumeric(m);
    var t, b, c := Bare(m), m.before, CoreText(m.core);
    assert forall i :: 0 <= i < |b| ==> b[i] == t[i];
    assert forall i :: 0 <= i < |c| ==> c[i] == t[|b| + i];
    assert forall i :: 0 <= i < |m.after| ==> m.after[i] == t[|b| + |c| + i];
    hide Bare, CoreText, IsCore;
    if m.before != "" {
      WhiteIsNotNumeric(m.before);
    }
    if m.after != "" {
      WhiteIsNotNumeric(m.after);
    }
    if m.core.Prefixed? {
      PrefixIsNotNumeric(m.core);
    }
  }

  lemma WhiteIsNotNumeric(s: string)
    requires AllWhite(s) && s != ""
    ensures !IsNumeric(s)
  {
    assert IsWhite(s[0]);
  }

  lemma PrefixIsNotNumeric(c: Core)
    requires c.Prefixed? && IsCore(c)
    ensures !IsNumeric(CoreText(c))
  {
    assert CoreText(c)[1] == c.mark;
  }

  lemma BareIsNumeric(m: Mantissa)
    requires IsNumeric(MantissaText(m))
    ensures IsNumeric(Bare(m))
  {
    var t, n := Bare(m), MantissaText(m);
    hide Bare;
    if t != n {
      var k := m.point.value;
      forall i | 0 <= i < |t| ensures IsDigit(t[i]) || t[i] in "+-." {
        assert t[i] == n[if i < k then i else i + 1];
      }
    }
  }

  lemma NumericTail(x: Tail, sign: Sign, digits: string)
    requires x.Tail? && IsTail(x) && AllDigits(digits) && x.space + TailNumber(x) + x.rest == SignText(sign) + digits
    ensures x.space == "" && !x.hex && x.rest == ""
  {
    var s := SignText(sign) + digits;
    var read := x.space + TailNumber(x);
    assert x.space != "" ==> s[0] == x.space[0];
    assert x.hex ==> s[|x.space| + |SignText(x.sign)| + 1] == 'x';
    assert x.rest != "" ==> s[|read|] == x.rest[0] && |read| > 0;
    DigitsBehindSign(sign, digits);
  }

  lemma DigitsBehindSign(sign: Sign, digits: string)
    requires AllDigits(digits)
    ensures var s := SignText(sign) + digits;
      forall i :: 0 <= i < |s| ==> !IsWhite(s[i]) && s[i] !in "xX" && (i > 0 ==> IsDigitIn(10, s[i]) && s[i] != 'e')
  {
  }

  lemma WholeFirst(l: Literal)
    requires IsLiteral(l) && l.whole != ""
    ensures PlainText(l)[0] != '.'
  {
    assert l.sign == Unsigned ==> PlainText(l)[0] == l.whole[0];
  }

  lemma PointFirst(l: Literal)
    requires IsLiteral(l) && |PlainText(l)| > 1 && PlainText(l)[0] == '.'
    ensures PlainText(l)[1] !in "+-"
  {
    if l.whole != "" {
      WholeFirst(l);
    } else {
      assert PlainText(l) == "." + l.frac;
    }
  }

  /** A written number has no extras, whatever accepted shape it is given. */
  lemma LiteralIsStrict(l: Literal, m: Mantissa, x: Tail)
    requires IsLiteral(l) && Accepted(Render(l), m, x)
    ensures !IsExtra(m, x)
  {
    LiteralMantissaIs(l);
    LiteralTailIs(l);
    LiteralLowered(l);
    CoreNoLetterE(m);
    CoreNoLetterE(LiteralMantissa(l));
    PlainIsNumeric(l);
    hide PlainText, MantissaText, IsMantissa, IsTail, SignText, TailNumber, IsNumeric, Render, LiteralMantissa;
    var tail := if l.exp.NoExponent? then "" else "e" + (SignText(l.exp.sign) + l.exp.digits);
    assert PlainText(l) + "" == PlainText(l);
    SameCut(PlainText(l), tail, MantissaText(m), TailText(x));
    NumericMantissa(m);
    if x.Tail? {
      assert TailText(x)[1..] == x.space + TailNumber(x) + x.rest;
      assert tail[1..] == SignText(l.exp.sign) + l.exp.digits;
      NumericTail(x, l.exp.sign, l.exp.digits);
    }
    SignNotBehindPoint(l, m);
  }

  lemma SignNotBehindPoint(l: Literal, m: Mantissa)
    requires IsLiteral(l) && IsMantissa(m) && MantissaText(m) == PlainText(l) && m.before == "" && m.core.Decimal?
    ensures m.core.sign != Unsigned ==> m.point != Some(0)
  {
    hide PlainText;
    if m.core.sign != Unsigned && m.point == Some(0) {
      assert MantissaText(m)[0] == '.' && MantissaText(m)[1] == SignText(m.core.sign)[0];
      PointFirst(l);
    }
  }

  /** The accepted texts are the written numbers and, apart from these, exactly the texts of the given shapes that have
      one of the extras. */
  lemma ParseAccepts(text: string)
    ensures Parse(text).Number? <==>
      (exists l :: IsLiteral(l) && Render(l) == text) || (exists m, x :: Accepted(text, m, x) && IsExtra(m, x))
    ensures !((exists l :: IsLiteral(l) && Render(l) == text) && (exists m, x :: Accepted(text, m, x) && IsExtra(m, x)))
  {
    hide *;
    if Parse(text).Number? {
      var m, x := AcceptedShape(text);
      if !IsExtra(m, x) {
        var l := StrictIsLiteral(text, m, x);
      }
    }
    forall m, x | Accepted(text, m, x) ensures Parse(text).Number? {
      ParseReads(text, m, x);
    }
    forall l | IsLiteral(l) && Render(l) == text
      ensures Parse(text).Number? && forall m, x :: Accepted(text, m, x) ==> !IsExtra(m, x)
    {
      ParseExact(l);
      forall m, x | Accepted(text, m, x) ensures !IsExtra(m, x) {
        LiteralIsStrict(l, m, x);
      }
    }
  }

  lemma SignAfterDotExample()
    ensures Parse(".-5") == Number(Dec(-5, 2))
  {
    var m := Mantissa("", Decimal(Minus, "5"), "", Some(0));
    hide Parse, Lower;
    PointedMantissa(m);
    NoCapitals(".-5");
    assert ".-5" + "" == ".-5";
    assert "5"[..0] == "" && DigitsValue("5") == 5;
    ParseReads(".-5", m, NoTail);
  }

  lemma PointedMantissa(m: Mantissa)
    requires m == Mantissa("", Decimal(Minus, "5"), "", Some(0))
    ensures IsMantissa(m) && MantissaText(m) == ".-5" && MantissaDecimals(m) == 2
  {
    assert CoreText(m.core) == "-5" && Bare(m) == "-5";
  }

  // ----- what white space does ---------------------------------------------

  /** The mantissa without its white space, the point between the same characters. */
  function Tight(m: Mantissa): Mantissa {
    Mantissa("", m.core, "",
             if m.point.None? then None
             else Some(Min(Max(m.point.value - |m.before|, 0), |CoreText(m.core)|)))
  }

  function TightTail(x: Tail): Tail {
    if x.NoTail? then x else x.(space := "")
  }

  /** Behind the point there is no white space; it is harmless in front of the point. */
  ghost predicate NoWhiteBehindPoint(m: Mantissa) {
    m.point.Some? ==> forall i :: m.point.value <= i < |Bare(m)| ==> !IsWhite(Bare(m)[i])
  }

  lemma BareParts(m: Mantissa)
    ensures var t, b, c := Bare(m), |m.before|, |CoreText(m.core)|;
      && |t| == b + c + |m.after|
      && (forall i :: 0 <= i < b ==> t[i] == m.before[i])
      && (forall i :: b <= i < b + c ==> t[i] == CoreText(m.core)[i - b])
      && (forall i :: b + c <= i < |t| ==> t[i] == m.after[i - b - c])
  {
    hide CoreText;
  }

  lemma CoreHasNoWhite(c: Core)
    requires IsCore(c)
    ensures forall i :: 0 <= i < |CoreText(c)| ==> !IsWhite(CoreText(c)[i])
  {
  }

  /** Removing the white space keeps the number of decimals exactly when there is none behind the point. */
  lemma TightDecimals(m: Mantissa)
    requires IsMantissa(m)
    ensures MantissaDecimals(Tight(m)) == MantissaDecimals(m) <==> NoWhiteBehindPoint(m)
    ensures IsMantissa(Tight(m))
  {
    BareParts(m);
    CoreHasNoWhite(m.core);
    assert Bare(Tight(m)) == CoreText(m.core);
    hide Bare, CoreText, IsCore, IsWhite;
    if m.point.Some? {
      var k, b, c := m.point.value, |m.before|, |CoreText(m.core)|;
      if k < b {
        assert IsWhite(Bare(m)[k]);
      } else if m.after != "" && k < |Bare(m)| {
        assert IsWhite(Bare(m)[|Bare(m)| - 1]);
      }
    }
  }

  lemma ScaleOfNumber(n: int, a: int, b: int)
    ensures Value(Dec(n, a)) == Value(Dec(n, b)) <==> n == 0 || a == b
  {
    hide Value;
    SignOfValue(Dec(n, a));
    SignOfValue(Dec(n, b));
    if n != 0 && a < b {
      OtherScale(n, a, b);
    } else if n != 0 && b < a {
      OtherScale(n, b, a);
    }
  }

  lemma OtherScale(n: int, a: int, b: int)
    requires n != 0 && a < b
    ensures Value(Dec(n, a)) != Value(Dec(n, b))
  {
    hide Value;
    var e := b - a;
    RescaleExact(Dec(n, a), e);
    if Value(Dec(n, a)) == Value(Dec(n, b)) {
      SameScale(n * Pow10(e), n, b);
      Magnified(n, Pow10(e - 1));
    }
  }

  lemma Magnified(n: int, p: int)
    requires n != 0 && p >= 1
    ensures n * (10 * p) != n
  {
    assert n * (10 * p) == n + n * (10 * p - 1);
  }

  /** The text without white space. */
  function TightText(m: Mantissa, x: Tail): string {
    MantissaText(Tight(m)) + TailText(TightTail(x))
  }

  lemma TightAccepted(text: string, m: Mantissa, x: Tail)
    requires Accepted(text, m, x)
    ensures Accepted(TightText(m, x), Tight(m), TightTail(x)) && TailValue(TightTail(x)) == TailValue(x)
  {
    TightDecimals(m);
    MantissaLowered(m, text, TailText(x));
    TailLowered(x, MantissaText(m), text);
    LowerConcat(MantissaText(Tight(m)), TailText(TightTail(x)));
    hide MantissaText, Lower, IsMantissa, Tight, TailText;
  }

  ghost predicate NoCapital(s: string) {
    forall i :: 0 <= i < |s| ==> !('A' <= s[i] <= 'Z')
  }

  lemma LoweredParts(text: string, a: string, b: string)
    requires Lower(text) == a + b
    ensures NoCapital(a) && NoCapital(b)
  {
    assert NoCapital(Lower(text));
    assert forall i :: 0 <= i < |a| ==> a[i] == (a + b)[i];
    assert forall i :: 0 <= i < |b| ==> b[i] == (a + b)[|a| + i];
  }

  lemma MantissaLowered(m: Mantissa, text: string, tail: string)
    requires IsMantissa(m) && Lower(text) == MantissaText(m) + tail
    ensures Lower(MantissaText(Tight(m))) == MantissaText(Tight(m))
  {
    LoweredParts(text, MantissaText(m), tail);
    BareNoCapital(m);
    BareParts(m);
    assert Bare(Tight(m)) == CoreText(m.core);
    hide Bare, CoreText, Lower;
    var core := CoreText(m.core);
    forall i | 0 <= i < |core| ensures !('A' <= core[i] <= 'Z') {
      assert core[i] == Bare(m)[|m.before| + i];
    }
    NoCapitals(MantissaText(Tight(m)));
  }

  lemma BareNoCapital(m: Mantissa)
    requires NoCapital(MantissaText(m))
    ensures NoCapital(Bare(m))
  {
    var t, n := Bare(m), MantissaText(m);
    hide Bare;
    if t != n {
      var k := m.point.value;
      forall i | 0 <= i < |t| ensures !('A' <= t[i] <= 'Z') {
        assert t[i] == n[if i < k then i else i + 1];
      }
    }
  }

  lemma TailLowered(x: Tail, mantissa: string, text: string)
    requires Lower(text) == mantissa + TailText(x)
    ensures Lower(TailText(TightTail(x))) == TailText(TightTail(x))
  {
    LoweredParts(text, mantissa, TailText(x));
    hide TailNumber, Lower;
    if x.Tail? {
      var t, u := TailText(x), TailText(TightTail(x));
      var n := |x.space|;
      assert TailNumber(TightTail(x)) == TailNumber(x) by { SpaceNotRead(x); }
      assert u == "e" + (TailNumber(x) + x.rest);
      assert forall i :: 1 <= i < |u| ==> u[i] == t[i + n];
      assert u[0] == 'e';
    }
    NoCapitals(TailText(TightTail(x)));
  }

  lemma SpaceNotRead(x: Tail)
    ensures x.Tail? ==> TailNumber(TightTail(x)) == TailNumber(x)
  {
  }

  lemma TightCore(m: Mantissa)
    ensures Tight(m).core == m.core && (IsMantissa(m) ==> IsCore(m.core))
  {
  }

  /** Padded text is read as the same number as the text without its white space if, and only if, the number is zero or
      no white space stands behind the point. */
  lemma WhiteSpaceHarmless(text: string, m: Mantissa, x: Tail)
    requires Accepted(text, m, x)
    ensures Parse(text).Number? && Parse(TightText(m, x)).Number?
    ensures Value(Parse(text).dec) == Value(Parse(TightText(m, x)).dec) <==>
      CoreValue(m.core) == 0 || NoWhiteBehindPoint(m)
  {
    hide *;
    AcceptedParts(text, m, x);
    TightCore(m);
    TightAccepted(text, m, x);
    ParseReads(text, m, x);
    ParseReads(TightText(m, x), Tight(m), TightTail(x));
    TightDecimals(m);
    ScaleOfNumber(CoreValue(m.core), MantissaDecimals(m) - TailValue(x), MantissaDecimals(Tight(m)) - TailValue(x));
  }

  /** White space behind the digits counts as a decimal: one and a half and a space is read as 0.15. */
  lemma SpaceCountsAsDecimal()
    ensures Parse("1.5 ") == Number(Dec(15, 2))
  {
    var m := Mantissa("", Decimal(Unsigned, "15"), " ", Some(1));
    DecimalFifteen();
    hide Parse, DigitsValue, Lower;
    SpacedMantissa(m);
    NoCapitals("1.5 ");
    assert "1.5 " + "" == "1.5 ";
    ParseReads("1.5 ", m, NoTail);
  }

  lemma SpacedMantissa(m: Mantissa)
    requires m == Mantissa("", Decimal(Unsigned, "15"), " ", Some(1))
    ensures IsMantissa(m) && MantissaText(m) == "1.5 " && MantissaDecimals(m) == 2
  {
    assert CoreText(m.core) == "15" && Bare(m) == "15 ";
  }

  lemma DecimalFifteen()
    ensures AllDigits("15") && DigitsValue("15") == 15
  {
    assert "15"[..1] == "1" && "1"[..0] == "" && DigitsValue("1") == 1;
  }
}
