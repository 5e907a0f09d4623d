/** Exact decimal arithmetic: an integer together with a number of decimals. */
module PreciseArithmetic {
  import opened Basics
  import opened Decimals

  /** The number integer / 10^decimals; decimals may be negative. */
  datatype Dec = Dec(integer: int, decimals: int)

  function Value(d: Dec): real {
    d.integer as real * Scale(-d.decimals)
  }

  function Mul(x: Dec, y: Dec): Dec {
    Dec(x.integer * y.integer, x.decimals + y.decimals)
  }

  function Div(x: Dec, y: Dec, precision: int): Dec
    requires y.integer != 0
  {
    var distance := precision - x.decimals + y.decimals;
    var numerator :=
      if distance == 0 then x.integer
      else if distance < 0 then TruncDiv(x.integer, Pow10(-distance))
      else x.integer * Pow10(distance);
    Dec(TruncDiv(numerator, y.integer), precision)
  }

  function Add(x: Dec, y: Dec): Dec {
    if x.decimals == y.decimals then
      Dec(x.integer + y.integer, x.decimals)
    else
      var (smaller, bigger) := if x.decimals > y.decimals then (y, x) else (x, y);
      var normalised := smaller.integer * Pow10(bigger.decimals - smaller.decimals);
      Dec(normalised + bigger.integer, bigger.decimals)
  }

  function Mod(x: Dec, y: Dec): Dec
    requires y.integer != 0
  {
    var rationizerNumerator := Max(-x.decimals + y.decimals, 0);
    var numerator := x.integer * Pow10(rationizerNumerator);
    var rationizerDenominator := Max(-y.decimals + x.decimals, 0);
    var denominator := y.integer * Pow10(rationizerDenominator);
    Dec(TruncRem(numerator, denominator), rationizerDenominator + y.decimals)
  }

  function Neg(x: Dec): Dec {
    Dec(-x.integer, x.decimals)
  }

  function Sub(x: Dec, y: Dec): Dec {
    Add(x, Neg(y))
  }

  function AbsDec(x: Dec): Dec {
    Dec(if x.integer < 0 then x.integer * -1 else x.integer, x.decimals)
  }

  predicate Gt(x: Dec, y: Dec) { Sub(x, y).integer > 0 }

  predicate Ge(x: Dec, y: Dec) { Sub(x, y).integer >= 0 }

  predicate Lt(x: Dec, y: Dec) { Gt(y, x) }

  predicate Le(x: Dec, y: Dec) { Ge(y, x) }

  function MinDec(x: Dec, y: Dec): Dec { if Lt(x, y) then x else y }

  function MaxDec(x: Dec, y: Dec): Dec { if Gt(x, y) then x else y }

  // ----- exactness ---------------------------------------------------------

  lemma ProductsRegroup(a: real, b: real, s: real, t: real)
    ensures (a * b) * (s * t) == (a * s) * (b * t)
  {
    assert (a * b) * (s * t) == a * (b * (s * t));
    assert b * (s * t) == s * (b * t);
    assert a * (s * (b * t)) == (a * s) * (b * t);
  }

  lemma MulExact(x: Dec, y: Dec)
    ensures Value(Mul(x, y)) == Value(x) * Value(y)
  {
    hide Scale;
    ScaleSum(-x.decimals, -y.decimals);
    ProductToReal(x.integer, y.integer);
    ProductsRegroup(x.integer as real, y.integer as real, Scale(-x.decimals), Scale(-y.decimals));
  }

  /** Shifting decimals into the integer does not change the number. */
  lemma RescaleExact(x: Dec, e: nat)
    ensures Value(Dec(x.integer * Pow10(e), x.decimals + e)) == Value(x)
  {
    hide Scale, Pow10;
    ScaleSum(e, -(x.decimals + e));
    ScaleIsPow10(e);
    ProductToReal(x.integer, Pow10(e));
    assert e + -(x.decimals + e) == -x.decimals;
    TimesAssociates(x.integer as real, Scale(e), Scale(-(x.decimals + e)));
  }

  lemma TimesAssociates(a: real, b: real, c: real)
    ensures (a * b) * c == a * (b * c)
  {
  }

  lemma SameDecimalsSum(a: int, b: int, decimals: int)
    ensures Value(Dec(a + b, decimals)) == Value(Dec(a, decimals)) + Value(Dec(b, decimals))
  {
    hide Scale;
    var s := Scale(-decimals);
    assert (a as real + b as real) * s == a as real * s + b as real * s;
  }

  lemma AddExact(x: Dec, y: Dec)
    ensures Value(Add(x, y)) == Value(x) + Value(y)
  {
    hide Value, Pow10;
    if x.decimals == y.decimals {
      SameDecimalsSum(x.integer, y.integer, x.decimals);
    } else {
      var (smaller, bigger) := if x.decimals > y.decimals then (y, x) else (x, y);
      var e := bigger.decimals - smaller.decimals;
      RescaleExact(smaller, e);
      SameDecimalsSum(smaller.integer * Pow10(e), bigger.integer, bigger.decimals);
    }
  }

  lemma NegExact(x: Dec)
    ensures Value(Neg(x)) == -Value(x)
  {
    hide Scale;
    SameDecimalsSum(x.integer, -x.integer, x.decimals);
  }

  lemma SubExact(x: Dec, y: Dec)
    ensures Value(Sub(x, y)) == Value(x) - Value(y)
  {
    hide Value, Add, Neg;
    NegExact(y);
    AddExact(x, Neg(y));
  }

  /** The decimals of the results. */
  lemma ResultDecimals(x: Dec, y: Dec, precision: int)
    ensures Mul(x, y).decimals == x.decimals + y.decimals
    ensures Add(x, y).decimals == Sub(x, y).decimals == Max(x.decimals, y.decimals)
    ensures Neg(x).decimals == AbsDec(x).decimals == x.decimals
    ensures y.integer != 0 ==> Div(x, y, precision).decimals == precision
    ensures Mod.requires(x, y) && y.integer != 0 ==> Mod(x, y).decimals == Max(x.decimals, y.decimals)
    ensures MinDec(x, y) in {x, y} && MaxDec(x, y) in {x, y}
  {
  }

  lemma SignOfValue(x: Dec)
    ensures x.integer > 0 <==> Value(x) > 0.0
    ensures x.integer >= 0 <==> Value(x) >= 0.0
    ensures x.integer == 0 <==> Value(x) == 0.0
  {
    hide Scale;
    SignOfProduct(x.integer as real, Scale(-x.decimals));
  }

  lemma SignOfProduct(a: real, s: real)
    requires s > 0.0
    ensures a > 0.0 <==> a * s > 0.0
    ensures a >= 0.0 <==> a * s >= 0.0
  {
  }

  lemma ComparisonsExact(x: Dec, y: Dec)
    ensures Gt(x, y) <==> Value(x) > Value(y)
    ensures Ge(x, y) <==> Value(x) >= Value(y)
    ensures Lt(x, y) <==> Value(x) < Value(y)
    ensures Le(x, y) <==> Value(x) <= Value(y)
  {
    hide Value, Sub;
    SubExact(x, y);
    SignOfValue(Sub(x, y));
    SubExact(y, x);
    SignOfValue(Sub(y, x));
  }

  lemma AbsMinMaxExact(x: Dec, y: Dec)
    ensures Value(AbsDec(x)) == if Value(x) < 0.0 then -Value(x) else Value(x)
    ensures Value(MinDec(x, y)) == if Value(x) < Value(y) then Value(x) else Value(y)
    ensures Value(MaxDec(x, y)) == if Value(x) > Value(y) then Value(x) else Value(y)
  {
    hide Value, Gt, Lt;
    SignOfValue(x);
    NegExact(x);
    ComparisonsExact(x, y);
  }

  // ----- division ----------------------------------------------------------

  /** The scaled quotient in terms of the two integers. */
  lemma ScaledQuotient(x: Dec, y: Dec, precision: int)
    requires y.integer != 0
    ensures Value(y) != 0.0
    ensures Value(x) / Value(y) * Scale(precision)
         == x.integer as real * Scale(precision - x.decimals + y.decimals) / y.integer as real
  {
    hide Scale;
    SignOfValue(y);
    var sx, sy, sp := Scale(-x.decimals), Scale(-y.decimals), Scale(precision);
    var sd := Scale(precision - x.decimals + y.decimals);
    ScaleSum(precision - x.decimals + y.decimals, -y.decimals);
    assert precision - x.decimals + y.decimals + -y.decimals == precision + -x.decimals;
    ScaleSum(precision, -x.decimals);
    assert sd * sy == sp * sx;
    QuotientRegroup(x.integer as real, y.integer as real, sx, sy, sp, sd);
  }

  lemma QuotientRegroup(a: real, b: real, sx: real, sy: real, sp: real, sd: real)
    requires b != 0.0 && sy > 0.0 && b * sy != 0.0
    requires sd * sy == sp * sx
    ensures (a * sx) / (b * sy) * sp == a * sd / b
  {
    var q := (a * sx) / (b * sy);
    var r := a * sd / b;
    assert q * (b * sy) == a * sx;
    assert r * b == a * sd;
    assert (q * sp) * (b * sy) == (a * sx) * sp by {
      TimesAssociates(q, sp, b * sy);
      TimesAssociates(q, b * sy, sp);
      assert sp * (b * sy) == (b * sy) * sp;
    }
    assert r * (b * sy) == (a * sd) * sy by {
      TimesAssociates(r, b, sy);
    }
    assert (a * sd) * sy == (a * sx) * sp by {
      TimesAssociates(a, sd, sy);
      TimesAssociates(a, sx, sp);
      assert sp * sx == sx * sp;
    }
    CancelFactor(q * sp, r, b * sy);
  }

  lemma CancelFactor(x: real, y: real, z: real)
    requires z != 0.0 && x * z == y * z
    ensures x == y
  {
    assert (x - y) * z == x * z - y * z;
  }

  /** Div is the exact quotient cut off, toward zero, after `precision` decimals. */
  lemma DivTruncates(x: Dec, y: Dec, precision: int)
    requires y.integer != 0
    ensures Value(y) != 0.0
    ensures Div(x, y, precision) == Dec(Trunc(Value(x) / Value(y) * Scale(precision)), precision)
  {
    hide *;
    if precision - x.decimals + y.decimals >= 0 {
      DivByFewer(x, y, precision);
    } else {
      DivByMore(x, y, precision);
    }
  }

  lemma DivByFewer(x: Dec, y: Dec, precision: int)
    requires y.integer != 0 && precision - x.decimals + y.decimals >= 0
    ensures Value(y) != 0.0
    ensures Div(x, y, precision) == Dec(Trunc(Value(x) / Value(y) * Scale(precision)), precision)
  {
    hide Scale, Pow10, TruncDiv, Trunc, Value;
    var distance := precision - x.decimals + y.decimals;
    ScaledQuotient(x, y, precision);
    ScaleIsPow10(distance);
    ProductToReal(x.integer, Pow10(distance));
    var n := x.integer * Pow10(distance);
    TruncDivIsTrunc(n, y.integer);
    if distance == 0 {
      PowersOfZero();
      assert n == x.integer;
    }
    assert Value(x) / Value(y) * Scale(precision) == n as real / y.integer as real;
  }

  /** The branch that truncates twice. */
  lemma DivByMore(x: Dec, y: Dec, precision: int)
    requires y.integer != 0 && precision - x.decimals + y.decimals < 0
    ensures Value(y) != 0.0
    ensures Div(x, y, precision) == Dec(Trunc(Value(x) / Value(y) * Scale(precision)), precision)
  {
    hide Scale, Pow10, TruncDiv, Trunc, Value;
    var distance := precision - x.decimals + y.decimals;
    ScaledQuotient(x, y, precision);
    var b := Pow10(-distance);
    TruncDivTwice(x.integer, b, y.integer);
    TruncDivIsTrunc(x.integer, b * y.integer);
    ScaleSum(distance, -distance);
    ScaleIsPow10(-distance);
    PowersOfZero();
    assert distance + -distance == 0;
    ProductToReal(b, y.integer);
    MoveToDenominator(x.integer as real, Scale(distance), b as real, y.integer as real);
    assert Value(x) / Value(y) * Scale(precision) == x.integer as real / (b * y.integer) as real;
  }

  lemma PowersOfZero()
    ensures Pow10(0) == 1 && Scale(0) == 1.0
  {
  }

  lemma MoveToDenominator(a: real, s: real, b: real, c: real)
    requires s * b == 1.0 && c != 0.0 && b > 0.0
    ensures b * c != 0.0 && a * s / c == a / (b * c)
  {
    var q := a * s / c;
    assert q * c == a * s;
    assert b * c != 0.0;
    assert q * (b * c) == (q * c) * b by { TimesAssociates(q, c, b); assert b * c == c * b; }
    assert (a * s) * b == a by { TimesAssociates(a, s, b); }
    var r := a / (b * c);
    assert r * (b * c) == a;
    CancelFactor(q, r, b * c);
  }

  // ----- remainder ---------------------------------------------------------

  /** Both operands of Mod written with the same number of decimals. */
  lemma CommonDecimals(x: Dec, y: Dec)
    ensures var e, f := Max(-x.decimals + y.decimals, 0), Max(-y.decimals + x.decimals, 0);
      var d := f + y.decimals;
      && Value(Dec(x.integer * Pow10(e), d)) == Value(x)
      && Value(Dec(y.integer * Pow10(f), d)) == Value(y)
  {
    hide Value, Pow10;
    RescaleExact(x, Max(-x.decimals + y.decimals, 0));
    RescaleExact(y, Max(-y.decimals + x.decimals, 0));
  }

  lemma CommonQuotient(a: int, b: int, decimals: int)
    requires b != 0
    ensures Value(Dec(b, decimals)) != 0.0
    ensures Value(Dec(a, decimals)) / Value(Dec(b, decimals)) == a as real / b as real
  {
    hide Scale;
    var s := Scale(-decimals);
    assert b as real * s != 0.0;
    var q := a as real / b as real;
    assert q * (b as real * s) == a as real * s by { TimesAssociates(q, b as real, s); }
    CancelFactor(q, (a as real * s) / (b as real * s), b as real * s);
  }

  lemma ValueOrder(a: int, b: int, decimals: int)
    ensures Value(Dec(a, decimals)) < Value(Dec(b, decimals)) <==> a < b
    ensures Value(Dec(-a, decimals)) == -Value(Dec(a, decimals))
  {
    hide Scale;
    ScaledOrder(a as real, b as real, Scale(-decimals));
    NegExact(Dec(a, decimals));
  }

  lemma SmallerMagnitude(a: int, b: int, decimals: int)
    requires Abs(a) < Abs(b)
    ensures RealAbs(Value(Dec(a, decimals))) < RealAbs(Value(Dec(b, decimals)))
  {
    hide Value;
    SignOfValue(Dec(a, decimals));
    SignOfValue(Dec(b, decimals));
    ValueOrder(a, b, decimals);
    ValueOrder(a, -b, decimals);
    ValueOrder(-a, b, decimals);
    ValueOrder(-a, -b, decimals);
    ValueOrder(b, a, decimals);
  }

  lemma IntegerMultiple(q: int, b: int, decimals: int)
    ensures Value(Dec(q * b, decimals)) == q as real * Value(Dec(b, decimals))
  {
    hide Scale;
    ProductToReal(q, b);
    TimesAssociates(q as real, b as real, Scale(-decimals));
  }

  /** x == q * y + Mod(x, y) where q is the quotient truncated to an integer. */
  lemma ModLaw(x: Dec, y: Dec)
    requires y.integer != 0
    ensures Value(y) != 0.0
    ensures Mod.requires(x, y)
    ensures Value(x) == Trunc(Value(x) / Value(y)) as real * Value(y) + Value(Mod(x, y))
    ensures RealAbs(Value(Mod(x, y))) < RealAbs(Value(y))
    ensures Value(Mod(x, y)) != 0.0 ==> (Value(Mod(x, y)) > 0.0 <==> Value(x) > 0.0)
  {
    hide Value, Pow10, Trunc, TruncDiv, TruncRem;
    var e, f := Max(-x.decimals + y.decimals, 0), Max(-y.decimals + x.decimals, 0);
    var d := f + y.decimals;
    var n, m := x.integer * Pow10(e), y.integer * Pow10(f);
    CommonDecimals(x, y);
    assert m != 0;
    var q, r := TruncDiv(n, m), TruncRem(n, m);
    TruncDivRem(n, m);
    CommonQuotient(n, m, d);
    TruncDivIsTrunc(n, m);
    SameDecimalsSum(q * m, r, d);
    IntegerMultiple(q, m, d);
    SmallerMagnitude(r, m, d);
    SignOfValue(Dec(r, d));
    SignOfValue(Dec(n, d));
  }
}
