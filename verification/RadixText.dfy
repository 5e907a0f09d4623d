/** Integers written with a radix prefix are read as themselves. */
module RadixText {
  import opened Basics
  import opened Decimals
  import opened StringPrimitives

  const LOWER_DIGITS := "0123456789abcdef"
  const UPPER_DIGITS := "0123456789ABCDEF"

  lemma Quotient(n: nat, radix: nat)
    requires radix >= 2
    ensures 0 <= n % radix < radix && n / radix >= 0
    ensures radix * (n / radix) + n % radix == n
    ensures n >= radix ==> n / radix < n
  {
    var q := n / radix;
    assert n == radix * q + n % radix;
    assert q > 0 ==> radix * q >= 2 * q;
  }

  /** The digits of a number, the most significant first. */
  function NumeralIn(radix: nat, digits: string, n: nat): (s: string)
    requires 2 <= radix <= |digits|
    ensures s != []
  {
    if n < radix then [digits[n]]
    else Quotient(n, radix); NumeralIn(radix, digits, n / radix) + [digits[n % radix]]
  }

  lemma DigitsAreDigits(digits: string, d: nat)
    requires digits in {LOWER_DIGITS, UPPER_DIGITS} && d < 16
    ensures |digits| == 16 && CharDigit(digits[d]) == d
  {
  }

  lemma ValueMore(radix: nat, s: string, c: char)
    ensures RadixValue(radix, s + [c]) == radix * RadixValue(radix, s) + CharDigit(c)
    ensures AllDigitsIn(radix, s) && CharDigit(c) < radix ==> AllDigitsIn(radix, s + [c])
    ensures RadixValue(radix, []) == 0
  {
    assert (s + [c])[..|s|] == s;
    hide CharDigit;
  }

  lemma Divided(radix: nat, digits: string, n: nat) returns (q: nat, d: nat)
    requires 2 <= radix <= |digits|
    ensures d < radix && radix * q + d == n
    ensures n < radix ==> d == n && NumeralIn(radix, digits, n) == [digits[d]]
    ensures n >= radix ==> q < n && NumeralIn(radix, digits, n) == NumeralIn(radix, digits, q) + [digits[d]]
  {
    Quotient(n, radix);
    q, d := n / radix, n % radix;
  }

  lemma {:induction false} NumeralHasValue(radix: nat, digits: string, n: nat)
    requires 2 <= radix <= 16 && digits in {LOWER_DIGITS, UPPER_DIGITS} && |digits| == 16
    ensures AllDigitsIn(radix, NumeralIn(radix, digits, n))
    ensures RadixValue(radix, NumeralIn(radix, digits, n)) == n
  {
    hide CharDigit, RadixValue, AllDigitsIn, NumeralIn;
    var q, d := Divided(radix, digits, n);
    DigitsAreDigits(digits, d);
    if n < radix {
      ValueMore(radix, [], digits[d]);
      NothingIn(radix);
      assert [] + [digits[d]] == [digits[d]];
    } else {
      NumeralHasValue(radix, digits, q);
      ValueMore(radix, NumeralIn(radix, digits, q), digits[d]);
    }
  }

  lemma NothingIn(radix: nat)
    ensures AllDigitsIn(radix, []) && radix * 0 == 0
  {
  }

  /** BigInt reads prefixed hexadecimal, octal and binary numerals back, in either case and between white space. */
  lemma PrefixedReads(before: string, after: string, digits: string, n: nat)
    requires AllWhite(before) && AllWhite(after) && digits in {LOWER_DIGITS, UPPER_DIGITS} && |digits| == 16
    ensures forall mark :: mark in "xX" ==>
      BigIntOf(before + ("0" + [mark] + NumeralIn(16, digits, n)) + after) == Some(n)
    ensures forall mark :: mark in "oO" ==>
      BigIntOf(before + ("0" + [mark] + NumeralIn(8, digits, n)) + after) == Some(n)
    ensures forall mark :: mark in "bB" ==>
      BigIntOf(before + ("0" + [mark] + NumeralIn(2, digits, n)) + after) == Some(n)
  {
    hide BigIntOf, NumeralIn, AllWhite, RadixValue, AllDigitsIn;
    NumeralHasValue(16, digits, n);
    NumeralHasValue(8, digits, n);
    NumeralHasValue(2, digits, n);
    forall mark | mark in "xX"
      ensures BigIntOf(before + ("0" + [mark] + NumeralIn(16, digits, n)) + after) == Some(n)
    {
      BigIntOfCore(before, Prefixed(mark, NumeralIn(16, digits, n)), after);
    }
    forall mark | mark in "oO"
      ensures BigIntOf(before + ("0" + [mark] + NumeralIn(8, digits, n)) + after) == Some(n)
    {
      BigIntOfCore(before, Prefixed(mark, NumeralIn(8, digits, n)), after);
    }
    forall mark | mark in "bB"
      ensures BigIntOf(before + ("0" + [mark] + NumeralIn(2, digits, n)) + after) == Some(n)
    {
      BigIntOfCore(before, Prefixed(mark, NumeralIn(2, digits, n)), after);
    }
  }

  lemma HexIsRead(mark: char, numeral: string)
    requires mark in "xX" && numeral != [] && AllDigitsIn(16, numeral)
    ensures ReadDigits("0" + [mark] + numeral) == Some(RadixValue(16, numeral))
  {
    var u := "0" + [mark] + numeral;
    assert u[2..] == numeral && u[0] == '0' && u[1] == mark;
    WholeIsPrefix(16, numeral);
    hide DigitPrefix, RadixValue, AllDigitsIn;
  }

  /** parseInt reads hexadecimal numerals back behind its prefix, a sign in front and white space. */
  lemma HexParses(space: string, sign: Sign, mark: char, digits: string, n: nat)
    requires AllWhite(space) && mark in "xX" && digits in {LOWER_DIGITS, UPPER_DIGITS} && |digits| == 16
    ensures ParseInt(space + (SignText(sign) + ("0" + [mark] + NumeralIn(16, digits, n)))) ==
      Some(if sign == Minus then 0 - n else n)
  {
    hide NumeralIn, RadixValue, AllWhite, ReadDigits, ParseInt, AllDigitsIn, SignText;
    var numeral := NumeralIn(16, digits, n);
    NumeralHasValue(16, digits, n);
    HexIsRead(mark, numeral);
    assert ("0" + [mark] + numeral)[0] == '0';
    ParseIntOf(space, sign, "0" + [mark] + numeral);
  }

  lemma {:induction false} WholeIsPrefix(radix: nat, s: string)
    requires AllDigitsIn(radix, s)
    ensures DigitPrefix(radix, s) == s
  {
    hide CharDigit;
    if s != [] {
      WholeIsPrefix(radix, s[1..]);
    }
  }
}
