/** Powers of ten, decimal digit strings and the exact value they denote. */
module Decimals {
  import opened Basics

  // ----- powers of ten -----------------------------------------------------

  function Pow10(n: nat): (r: nat)
    ensures r > 0
  {
    if n == 0 then 1 else 10 * Pow10(n - 1)
  }

  lemma {:induction false} Pow10Add(a: nat, b: nat)
    ensures Pow10(a + b) == Pow10(a) * Pow10(b)
  {
    if a != 0 {
      Pow10Add(a - 1, b);
      assert Pow10(a + b) == 10 * Pow10(a - 1 + b);
    }
  }

  lemma {:induction false} Pow10Grows(a: nat, b: nat)
    ensures a < b ==> Pow10(a) < Pow10(b)
    ensures a <= b ==> Pow10(a) <= Pow10(b)
  {
    if a < b - 1 {
      Pow10Grows(a, b - 1);
    }
  }

  /** Ten to any integer power. */
  function Scale(k: int): (r: real)
    ensures r > 0.0
    decreases if k >= 0 then k else -k
  {
    if k == 0 then 1.0 else if k > 0 then 10.0 * Scale(k - 1) else Scale(k + 1) / 10.0
  }

  lemma {:induction false} ScaleIsPow10(n: nat)
    ensures Scale(n) == Pow10(n) as real
  {
    if n != 0 {
      ScaleIsPow10(n - 1);
    }
  }

  lemma ScaleStep(k: int)
    ensures Scale(k + 1) == 10.0 * Scale(k)
  {
  }

  lemma TenTimes(a: real, b: real, c: real)
    ensures c == a * b <==> 10.0 * c == a * (10.0 * b)
  {
    assert a * (10.0 * b) == 10.0 * (a * b);
  }

  ghost predicate ScaleSumAt(a: int, b: int) {
    Scale(a + b) == Scale(a) * Scale(b)
  }

  lemma ScaleSumStep(a: int, b: int)
    ensures ScaleSumAt(a, b) <==> ScaleSumAt(a, b + 1)
  {
    hide Scale;
    ScaleStep(a + b);
    ScaleStep(b);
    assert a + (b + 1) == a + b + 1;
    TenTimes(Scale(a), Scale(b), Scale(a + b));
  }

  lemma {:induction false} ScaleSumInduction(a: int, b: int)
    ensures ScaleSumAt(a, b)
    decreases if b >= 0 then b else -b
  {
    if b == 0 {
      assert Scale(0) == 1.0;
    } else {
      hide *;
      if b > 0 {
        ScaleSumInduction(a, b - 1);
        ScaleSumStep(a, b - 1);
      } else {
        ScaleSumInduction(a, b + 1);
        ScaleSumStep(a, b);
      }
    }
  }

  lemma ScaleSum(a: int, b: int)
    ensures Scale(a + b) == Scale(a) * Scale(b)
  {
    hide Scale;
    ScaleSumInduction(a, b);
  }

  // ----- digit strings -----------------------------------------------------

  predicate IsDigit(c: char) {
    '0' <= c <= '9'
  }

  predicate AllDigits(s: string) {
    forall i :: 0 <= i < |s| ==> IsDigit(s[i])
  }

  function DigitOf(c: char): (r: nat)
    requires IsDigit(c)
    ensures r <= 9
  {
    c as int - '0' as int
  }

  function DigitChar(d: nat): (c: char)
    requires d <= 9
    ensures IsDigit(c) && DigitOf(c) == d
  {
    ('0' as int + d) as char
  }

  /** The number a string of digits denotes; the empty string denotes 0. */
  function DigitsValue(s: string): nat
    requires AllDigits(s)
  {
    if s == [] then 0 else 10 * DigitsValue(s[..|s| - 1]) + DigitOf(s[|s| - 1])
  }

  function Zeros(n: nat): (s: string)
    ensures |s| == n && AllDigits(s)
    ensures forall i :: 0 <= i < n ==> s[i] == '0'
  {
    seq(n, _ => '0')
  }

  lemma {:induction false} DigitsValueConcat(s: string, t: string)
    requires AllDigits(s) && AllDigits(t)
    ensures AllDigits(s + t)
    ensures DigitsValue(s + t) == DigitsValue(s) * Pow10(|t|) + DigitsValue(t)
  {
    if t == [] {
      assert s + t == s;
    } else {
      var t' := t[..|t| - 1];
      assert (s + t)[..|s + t| - 1] == s + t';
      DigitsValueConcat(s, t');
      TenTimesProduct(DigitsValue(s), Pow10(|t'|));
    }
  }

  lemma TenTimesProduct(a: int, b: int)
    ensures a * (10 * b) == 10 * (a * b)
  {
  }

  lemma {:induction false} DigitsValueBound(s: string)
    requires AllDigits(s)
    ensures DigitsValue(s) < Pow10(|s|)
  {
    if s != [] {
      DigitsValueBound(s[..|s| - 1]);
    }
  }

  lemma {:induction false} ZerosValue(s: string)
    requires forall i :: 0 <= i < |s| ==> s[i] == '0'
    ensures AllDigits(s) && DigitsValue(s) == 0
  {
    if s != [] {
      ZerosValue(s[..|s| - 1]);
    }
  }

  lemma LeadingZeros(n: nat, s: string)
    requires AllDigits(s)
    ensures AllDigits(Zeros(n) + s) && DigitsValue(Zeros(n) + s) == DigitsValue(s)
  {
    ZerosValue(Zeros(n));
    DigitsValueConcat(Zeros(n), s);
  }

  lemma TrailingZeros(s: string, n: nat)
    requires AllDigits(s)
    ensures AllDigits(s + Zeros(n)) && DigitsValue(s + Zeros(n)) == DigitsValue(s) * Pow10(n)
  {
    ZerosValue(Zeros(n));
    DigitsValueConcat(s, Zeros(n));
  }

  /** The decimal numeral of a natural number, without leading zeros. */
  function Numeral(n: nat): (s: string)
    ensures s != [] && AllDigits(s)
  {
    if n < 10 then [DigitChar(n)] else Numeral(n / 10) + [DigitChar(n % 10)]
  }

  lemma {:induction false} NumeralValue(n: nat)
    ensures DigitsValue(Numeral(n)) == n
  {
    var s := Numeral(n);
    if n < 10 {
      assert s[..0] == [];
    } else {
      NumeralValue(n / 10);
      assert s[..|s| - 1] == Numeral(n / 10);
    }
  }

  lemma {:induction false} NumeralHasNoLeadingZero(n: nat)
    requires n > 0
    ensures Numeral(n)[0] != '0'
  {
    if n >= 10 {
      NumeralHasNoLeadingZero(n / 10);
    }
  }

  /** A numeral and the same numeral with its last digit removed. */
  lemma NumeralLastDigit(n: nat)
    ensures var s := Numeral(n); s[|s| - 1] == '0' <==> n % 10 == 0
    ensures n >= 10 ==> Numeral(n)[..|Numeral(n)| - 1] == Numeral(n / 10)
    ensures n < 10 <==> |Numeral(n)| == 1
  {
  }

  // ----- truncating division -----------------------------------------------

  /** Integer division of JavaScript's BigInt: the quotient is truncated toward zero. */
  function TruncDiv(a: int, b: int): int
    requires b != 0
  {
    if (a >= 0) == (b > 0) then Abs(a) / Abs(b) else -(Abs(a) / Abs(b))
  }

  /** Remainder of JavaScript's BigInt: it takes the sign of the dividend. */
  function TruncRem(a: int, b: int): int
    requires b != 0
  {
    if a >= 0 then Abs(a) % Abs(b) else -(Abs(a) % Abs(b))
  }

  lemma TruncDivRem(a: int, b: int)
    requires b != 0
    ensures a == TruncDiv(a, b) * b + TruncRem(a, b)
    ensures Abs(TruncRem(a, b)) < Abs(b)
    ensures TruncRem(a, b) == 0 || (TruncRem(a, b) > 0 <==> a > 0)
  {
    var k, m := TruncDivParts(a, b);
    hide TruncDiv, TruncRem;
    SignedDivision(a, b, k, m, TruncDiv(a, b), TruncRem(a, b));
  }

  lemma TruncDivParts(a: int, b: int) returns (k: int, m: int)
    requires b != 0
    ensures 0 <= m < Abs(b) && Abs(a) == Abs(b) * k + m
    ensures TruncDiv(a, b) == if (a >= 0) == (b > 0) then k else -k
    ensures TruncRem(a, b) == if a >= 0 then m else -m
  {
    k, m := Abs(a) / Abs(b), Abs(a) % Abs(b);
  }

  lemma SignedDivision(a: int, b: int, k: int, m: int, d: int, r: int)
    requires Abs(a) == Abs(b) * k + m
    requires d == if (a >= 0) == (b > 0) then k else -k
    requires r == if a >= 0 then m else -m
    ensures a == d * b + r
  {
  }

  /** A real truncated toward zero. */
  function Trunc(r: real): int {
    if r >= 0.0 then r.Floor else -((-r).Floor)
  }

  /** The whole part of a number: no further from zero, on the same side of it, and less than one away. */
  lemma TruncIs(r: real)
    ensures r >= 0.0 ==> 0.0 <= Trunc(r) as real <= r < Trunc(r) as real + 1.0
    ensures r < 0.0 ==> Trunc(r) as real - 1.0 < r <= Trunc(r) as real <= 0.0
  {
  }

  lemma FloorIs(r: real, n: int)
    requires n as real <= r < (n + 1) as real
    ensures r.Floor == n
  {
  }

  lemma NatQuotientFloor(a: nat, b: nat)
    requires b > 0
    ensures (a as real / b as real).Floor == a / b
  {
    var q, r := a / b, a % b;
    assert a == q * b + r;
    var x := a as real / b as real;
    assert x * b as real == a as real;
    ProductToReal(q, b);
    assert (q + 1) * b == q * b + b;
    if x < q as real {
      ScaledOrder(x, q as real, b as real);
      assert false;
    }
    if x >= (q + 1) as real {
      ProductToReal(q + 1, b);
      ScaledOrder((q + 1) as real, x, b as real);
      assert false;
    }
    FloorIs(x, q);
  }

  lemma ProductToReal(a: int, b: int)
    ensures (a * b) as real == a as real * b as real
  {
  }

  lemma ScaledOrder(x: real, y: real, b: real)
    requires b > 0.0
    ensures x < y <==> x * b < y * b
    ensures x <= y <==> x * b <= y * b
  {
    assert (y - x) * b == y * b - x * b;
  }

  lemma TruncDivIsTrunc(a: int, b: int)
    requires b != 0
    ensures TruncDiv(a, b) == Trunc(a as real / b as real)
  {
    var p, q := Abs(a), Abs(b);
    NatQuotientFloor(p, q);
    SignOfQuotient(a as real, b as real);
  }

  lemma SignOfQuotient(a: real, b: real)
    requires b != 0.0
    ensures a >= 0.0 && b > 0.0 ==> a / b >= 0.0
    ensures a < 0.0 && b > 0.0 ==> a / b < 0.0 && -(a / b) == (-a) / b
    ensures a > 0.0 && b < 0.0 ==> a / b < 0.0 && -(a / b) == a / (-b)
    ensures a <= 0.0 && b < 0.0 ==> a / b >= 0.0 && a / b == (-a) / (-b)
  {
  }

  /** Truncating twice is truncating once by the product. */
  lemma TruncDivTwice(a: int, b: nat, c: int)
    requires b > 0 && c != 0
    ensures b * c != 0 && TruncDiv(TruncDiv(a, b), c) == TruncDiv(a, b * c)
  {
    ScaledMagnitude(b, c);
    NatDivTwice(Abs(a), b, Abs(c));
    SignsOfQuotients(a, b, c, b * c);
  }

  lemma ScaledMagnitude(b: nat, c: int)
    requires b > 0 && c != 0
    ensures b * c != 0 && Abs(b * c) == b * Abs(c) && (b * c > 0 <==> c > 0)
  {
    if c > 0 {
      assert b * c > 0;
    } else {
      assert b * c == -(b * -c) && b * -c > 0;
    }
  }

  lemma SignsOfQuotients(a: int, b: nat, c: int, d: int)
    requires b > 0 && c != 0 && d != 0 && (d > 0 <==> c > 0)
    requires Abs(a) / b / Abs(c) == Abs(a) / Abs(d)
    ensures TruncDiv(TruncDiv(a, b), c) == TruncDiv(a, d)
  {
    var q := Abs(a) / b;
    assert Abs(TruncDiv(a, b)) == q;
    if q == 0 {
      assert 0 / Abs(c) == 0;
    }
  }

  lemma NatDivTwice(a: nat, b: nat, c: nat)
    requires b > 0 && c > 0
    ensures b * c > 0 && a / b / c == a / (b * c)
  {
    var q, r := a / b, a % b;
    var q', r' := q / c, q % c;
    DivisionParts(a, b);
    DivisionParts(q, c);
    StepMultiple(b, r', c);
    ProductRegroups(b, c, q', r');
    QuotientIs(a, b * c, q', b * r' + r);
  }

  lemma DivisionParts(a: nat, b: nat)
    requires b > 0
    ensures a == b * (a / b) + a % b && 0 <= a % b < b
  {
  }

  lemma ProductRegroups(b: int, c: int, q: int, r: int)
    ensures b * (c * q + r) == (b * c) * q + b * r
  {
    assert b * (c * q) == (b * c) * q;
  }

  lemma QuotientIs(a: nat, b: nat, q: nat, r: nat)
    requires 0 <= r < b && a == b * q + r
    ensures a / b == q && a % b == r
  {
    var q', r' := a / b, a % b;
    assert a == b * q' + r';
    StepMultiple(b, q', q);
    StepMultiple(b, q, q');
  }

  lemma StepMultiple(b: nat, x: nat, y: nat)
    ensures x < y ==> b * x + b <= b * y
  {
    if x < y {
      var k := y - x - 1;
      ProductOfSum(b, x + 1, k);
      ProductOfSum(b, x, 1);
    }
  }

  lemma ProductOfSum(b: nat, x: nat, k: nat)
    ensures b * (x + k) == b * x + b * k && b * k >= 0
  {
  }
}
