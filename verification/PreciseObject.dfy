/** The mutable Precise object: normalising changes it in place, and equals and toString normalise first. */
module PreciseObject {
  import opened Basics
  import opened Decimals
  import opened PreciseArithmetic
  import opened StringPrimitives
  import opened PreciseText

  lemma IntegerTextLastDigit(n: int)
    ensures var s := IntegerText(n);
      && (s[|s| - 1] == '0' <==> n % 10 == 0)
      && (|s| == 1 <==> 0 <= n < 10)
      && (n % 10 == 0 && n != 0 ==> |s| > 1 && s[..|s| - 1] == IntegerText(n / 10))
  {
    var m := Abs(n);
    NumeralLastDigit(m);
    hide Numeral;
    if n < 0 && m % 10 == 0 {
      assert n / 10 + m / 10 == 0;
      assert ("-" + Numeral(m))[..|Numeral(m)|] == "-" + Numeral(m)[..|Numeral(m)| - 1];
    }
  }

  class Precise {
    var integer: int
    var decimals: int

    ghost function Num(): Dec
      reads this
    {
      Dec(integer, decimals)
    }

    constructor (integer: int, decimals: int)
      ensures Num() == Dec(integer, decimals)
    {
      this.integer, this.decimals := integer, decimals;
    }

    /** Cuts the trailing zeros off the printed integer. */
    method Reduce()
      modifies this
      ensures Num() == Reduced(old(Num()))
    {
      hide Reduced, IntegerText, BigIntOf, Cutting;
      var text := IntegerText(integer);
      var start := |text| - 1;
      IntegerTextLastDigit(integer);
      ShortIsReduced(Num());
      CutNothing(Num());
      if start == 0 {
        if text == "0" {
          decimals := 0;
        }
        return;
      }
      var i := start;
      ghost var v := integer;
      assert text[..start + 1] == text;
      while i >= 0 && text[i] == '0'
        invariant 0 <= i <= start && Cutting(Num(), text, i, v)
        invariant Num() == old(Num())
        decreases i
      {
        CutOneMore(Num(), text, i, v);
        i := i - 1;
        v := v / 10;
      }
      CutAll(Num(), text, i, v);
      var difference := start - i;
      if difference == 0 {
        return;
      }
      decimals := decimals - difference;
      integer := BigIntOf(text[..i + 1]).value;
    }

    /** Decides equality of the numbers, whatever their scales. */
    method Equals(other: Precise) returns (equal: bool)
      modifies this, other
      ensures equal <==> old(Value(Num())) == old(Value(other.Num()))
      ensures Num() == Reduced(old(Num())) && other.Num() == Reduced(old(other.Num()))
    {
      hide Value, Reduced;
      ghost var x, y := Num(), other.Num();
      Reduce();
      ReducedUnique(x, y);
      ReducedUnique(Reduced(y), y);
      ReducedExact(y);
      other.Reduce();
      ReducedTwice(x);
      equal := decimals == other.decimals && integer == other.integer;
    }

    method ToString() returns (text: string)
      modifies this
      ensures text == Print(old(Num()))
      ensures Num() == Reduced(old(Num()))
    {
      hide Reduced, Numeral, Padded;
      Reduce();
      var sign, abs;
      if integer < 0 {
        sign, abs := "-", -integer;
      } else {
        sign, abs := "", integer;
      }
      var digits := Padded(Numeral(abs), decimals);
      var index := |digits| - decimals;
      var item;
      if index == 0 {
        item := "0.";
      } else if decimals < 0 {
        item := Zeros(-decimals);
      } else if decimals == 0 {
        item := "";
      } else {
        item := ".";
      }
      digits := Splice(digits, index, item);
      text := sign + digits;
    }
  }

  /** The text cut behind position i is the integer v, with which the number reduces to the same. */
  ghost predicate Cutting(d: Dec, text: string, i: int, v: int) {
    && 0 <= i < |text| && |text| == |IntegerText(d.integer)| && text == IntegerText(d.integer) && v != 0
    && text[..i + 1] == IntegerText(v)
    && Reduced(Dec(v, d.decimals - (|text| - 1 - i))) == Reduced(d)
  }

  /** A number of one digit is reduced but for the decimals of zero. */
  lemma ShortIsReduced(d: Dec)
    ensures |IntegerText(d.integer)| == 1 ==>
      Reduced(d) == Dec(d.integer, if IntegerText(d.integer) == "0" then 0 else d.decimals)
  {
    IntegerTextLastDigit(d.integer);
  }

  lemma CutNothing(d: Dec)
    ensures |IntegerText(d.integer)| > 1 ==>
      Cutting(d, IntegerText(d.integer), |IntegerText(d.integer)| - 1, d.integer)
  {
    IntegerTextLastDigit(d.integer);
    hide Reduced;
    var text := IntegerText(d.integer);
    assert text[..|text|] == text;
  }

  lemma CutOneMore(d: Dec, text: string, i: int, v: int)
    requires Cutting(d, text, i, v) && text[i] == '0'
    ensures i > 0 && Cutting(d, text, i - 1, v / 10)
  {
    IntegerTextLastDigit(v);
    hide IntegerText;
    assert text[..i + 1][i] == '0' && text[..i + 1][..i] == text[..i];
    ReducedTenth(Dec(v, d.decimals - (|text| - 1 - i)));
  }

  lemma CutAll(d: Dec, text: string, i: int, v: int)
    requires Cutting(d, text, i, v) && text[i] != '0'
    ensures BigIntOf(text[..i + 1]) == Some(v) && Reduced(d) == Dec(v, d.decimals - (|text| - 1 - i))
    ensures i == |text| - 1 ==> v == d.integer
  {
    IntegerTextLastDigit(v);
    IntegerTextParses(v);
    IntegerTextParses(d.integer);
    hide IntegerText, BigIntOf;
    assert text[..i + 1][i] != '0';
    assert i == |text| - 1 ==> text[..i + 1] == text;
  }

  lemma ReducedTwice(d: Dec)
    ensures Reduced(Reduced(d)) == Reduced(d)
  {
    ReducedExact(d);
    hide Value, Reduced;
    ReducedUnique(Reduced(d), d);
  }
}
