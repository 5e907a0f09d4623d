/** decimalToPrecision: rounding a plain decimal string in a buffer of digits, and printing the buffer. */
module NumberFormat {
  import opened Basics
  import opened Decimals
  import opened StringPrimitives
  import opened PreciseText
  import opened PreciseArithmetic

  datatype RoundingMode = ROUND | TRUNCATE | ROUND_UP | ROUND_DOWN

  datatype CountingMode = DECIMAL_PLACES | SIGNIFICANT_DIGITS

  datatype PaddingMode = NO_PADDING | PAD_WITH_ZERO

  // ----- the written number ------------------------------------------------

  predicate Negative(str: string) {
    str != [] && str[0] == '-'
  }

  function Body(str: string): string {
    if Negative(str) then str[1..] else str
  }

  function Whole(str: string): string {
    var dot := IndexOf(Body(str), '.');
    if dot == -1 then Body(str) else Body(str)[..dot]
  }

  function Fraction(str: string): string {
    var dot := IndexOf(Body(str), '.');
    if dot == -1 then "" else Body(str)[dot + 1..]
  }

  /** An optional minus sign, digits, and optionally a point and more digits. */
  ghost predicate IsPlain(str: string) {
    AllDigits(Whole(str) + Fraction(str))
  }

  /** An optional minus sign and then nothing but digits and points: what the copying loop lets through. */
  predicate IsDotted(str: string) {
    forall c :: c in Body(str) ==> IsDigit(c) || c == '.'
  }

  /** Of the texts that are let through, those with at most one point are the numbers. */
  lemma DottedIsPlain(str: string)
    ensures IsPlain(str) <==> IsDotted(str) && '.' !in Fraction(str)
  {
    hide IndexOf, Body, IsDigit, AllDigits;
    var body, dot := Body(str), IndexOf(Body(str), '.');
    if dot == -1 {
      assert Whole(str) + Fraction(str) == body;
      DigitsAreMembers(body);
    } else {
      assert '.' !in body[..dot];
      DottedAround(body, dot);
    }
  }

  /** A text with two points is let through, though it is no number. */
  lemma TwoPointsAccepted()
    ensures IsDotted("1.2.3") && !IsPlain("1.2.3")
  {
    assert Body("1.2.3") == "1.2.3";
    IndexIs("1.2.3", '.', 1);
    hide IndexOf;
    assert Fraction("1.2.3")[1] == '.';
    DottedIsPlain("1.2.3");
  }

  lemma DottedAround(body: string, dot: nat)
    requires dot < |body| && body[dot] == '.' && '.' !in body[..dot]
    ensures AllDigits(body[..dot] + body[dot + 1..]) <==>
      (forall c :: c in body ==> IsDigit(c) || c == '.') && '.' !in body[dot + 1..]
  {
    hide IsDigit, AllDigits;
    PointIsNoDigit();
    DigitsAreMembers(body[..dot] + body[dot + 1..]);
    MembersAround(body, dot);
  }

  lemma PointIsNoDigit()
    ensures !IsDigit('.')
  {
  }

  lemma DigitsAreMembers(s: string)
    ensures AllDigits(s) <==> forall c :: c in s ==> IsDigit(c)
  {
    hide IsDigit;
    assert forall i :: 0 <= i < |s| ==> s[i] in s;
  }

  lemma MembersAround(s: string, k: nat)
    requires k < |s|
    ensures forall c :: c in s <==> c == s[k] || c in s[..k] + s[k + 1..]
    ensures forall c :: c in s[..k] + s[k + 1..] <==> c in s[..k] || c in s[k + 1..]
  {
    assert s == s[..k] + [s[k]] + s[k + 1..];
  }

  /** Digits with the point in front of the last `decimals` of them. */
  ghost function DigitsReal(digits: string, decimals: int): real
    requires AllDigits(digits)
  {
    Value(Dec(DigitsValue(digits), decimals))
  }

  /** The absolute value of a plain decimal string. */
  ghost function Magnitude(str: string): real
    requires IsPlain(str)
  {
    DigitsReal(Whole(str) + Fraction(str), |Fraction(str)|)
  }

  // ----- the rounding it should compute ------------------------------------

  /** A non-negative number to an integer: half away from zero when rounding, toward zero otherwise. */
  ghost function ToInteger(mode: RoundingMode, x: real): int {
    if mode == ROUND then (x + 0.5).Floor else x.Floor
  }

  /** v with the point moved k digits to the right. */
  ghost function Shifted(v: real, k: int): real {
    v * Scale(k)
  }

  /** v at k decimals: half away from zero when rounding, toward zero otherwise. */
  ghost function RoundAt(mode: RoundingMode, v: real, k: int): real {
    Value(Dec(ToInteger(mode, Shifted(v, k)), k))
  }

  /** Position of the first digit that is not 0; the length if there is none. */
  function LeadingZeroCount(s: string): (k: nat)
    ensures k <= |s|
    ensures forall i :: 0 <= i < k ==> s[i] == '0'
    ensures k < |s| ==> s[k] != '0'
  {
    if s == [] || s[0] != '0' then 0 else 1 + LeadingZeroCount(s[1..])
  }

  // ----- rounding in the buffer --------------------------------------------

  /** 1 when the digit at the cut rounds the number up. */
  function Up(mode: RoundingMode, digits: string, cut: int): nat {
    if mode == ROUND && 0 <= cut < |digits| && digits[cut] >= '5' then 1 else 0
  }

  /** The first digits of s, plus the carry, followed by zeros. */
  ghost predicate IsRounded(mode: RoundingMode, digits: string, cut: nat, r: string)
    requires AllDigits(digits)
  {
    var p := Min(cut, |digits|);
    && |r| == |digits| && AllDigits(r)
    && (forall i :: p <= i < |r| ==> r[i] == '0')
    && DigitsValue(r) == (DigitsValue(digits[..p]) + Up(mode, digits, cut)) * Pow10(|digits| - p)
  }

  /** The part of IsRounded that holds when the digits from i on have been processed. */
  ghost predicate IsRoundedFrom(mode: RoundingMode, digits: string, cut: nat, i: nat, r: string, memo: nat)
    requires AllDigits(digits) && i <= |digits|
  {
    var p := Min(cut, |digits|);
    && |r| == |digits| - i && AllDigits(r)
    && (forall j :: 0 <= j < |r| && p <= i + j ==> r[j] == '0')
    && (i >= p ==> memo == Up(mode, digits, i))
    && (i <= p ==>
      DigitsValue(r) + memo * Pow10(|r|) == (DigitsValue(digits[i..p]) + Up(mode, digits, cut)) * Pow10(|digits| - p))
  }

  lemma DigitsValueCons(c: char, s: string)
    requires IsDigit(c) && AllDigits(s)
    ensures AllDigits([c] + s) && DigitsValue([c] + s) == DigitOf(c) * Pow10(|s|) + DigitsValue(s)
  {
    DigitsValueConcat([c], s);
    DigitsValueOne(c);
    hide DigitsValue, Pow10;
  }

  lemma DigitsValueOne(c: char)
    requires IsDigit(c)
    ensures DigitsValue([c]) == DigitOf(c)
  {
    assert [c][..0] == [];
  }

  lemma CarryStep(mode: RoundingMode, digits: string, cut: nat, i: nat, r: string, memo: nat, c: char, memo': nat)
    requires AllDigits(digits) && i < |digits|
    requires IsRoundedFrom(mode, digits, cut, i + 1, r, memo)
    requires i < cut && IsDigit(c) && DigitOf(c) + 10 * memo' == DigitOf(digits[i]) + memo
    ensures IsRoundedFrom(mode, digits, cut, i, [c] + r, memo')
  {
    var p := Min(cut, |digits|);
    assert Pow10(|[c] + r|) == 10 * Pow10(|r|);
    hide DigitsValue, Pow10, Up, IsDigit, DigitOf;
    DigitsValueCons(c, r);
    assert digits[i..p] == [digits[i]] + digits[i + 1..p];
    DigitsValueCons(digits[i], digits[i + 1..p]);
    Pow10Add(p - i - 1, |digits| - p);
    CarryArithmetic(DigitOf(c), memo', DigitOf(digits[i]), memo, Pow10(|r|), DigitsValue(r),
                    DigitsValue(digits[i + 1..p]), Up(mode, digits, cut), Pow10(p - i - 1), Pow10(|digits| - p));
  }

  lemma CarryArithmetic(c: int, m': int, d: int, m: int, t: int, v: int, w: int, up: int, q: int, u: int)
    requires c + 10 * m' == d + m && t == q * u && v + m * t == (w + up) * u
    ensures c * t + v + m' * (10 * t) == (d * q + w + up) * u
  {
    assert c * t + 10 * m' * t == d * t + m * t by {
      assert (c + 10 * m') * t == (d + m) * t;
    }
    assert d * t == d * q * u;
    assert (d * q + w + up) * u == d * q * u + (w + up) * u;
  }

  lemma CutStep(mode: RoundingMode, digits: string, cut: nat, i: nat, r: string, memo: nat)
    requires AllDigits(digits) && cut <= i < |digits|
    requires IsRoundedFrom(mode, digits, cut, i + 1, r, memo)
    ensures IsRoundedFrom(mode, digits, cut, i, ['0'] + r, Up(mode, digits, i))
  {
    var p := Min(cut, |digits|);
    if i <= p {
      ZerosValue(['0'] + r);
      assert digits[i..p] == [];
    }
  }

  /** The significant digits of a buffer run from first to last (exclusive); -1 when there are none. */
  ghost predicate Spans(s: string, allZeros: bool, first: int, last: int) {
    if allZeros then last == -1 && forall i :: 0 <= i < |s| ==> s[i] == '0'
    else
      && 0 <= first < last <= |s|
      && s[first] != '0' && s[last - 1] != '0'
      && (forall i :: 0 <= i < first ==> s[i] == '0')
      && (forall i :: last <= i < |s| ==> s[i] == '0')
  }

  /** Spans with positions counted from an offset in front of s. */
  ghost predicate SpansAt(s: string, offset: int, allZeros: bool, first: int, last: int) {
    Spans(s, allZeros, first - offset, if allZeros then last else last - offset)
  }

  lemma SpansCons(c: char, s: string, offset: int, allZeros: bool, first: int, last: int)
    requires SpansAt(s, offset + 1, allZeros, first, last) && offset >= 0
    ensures c == '0' ==> SpansAt([c] + s, offset, allZeros, first, last)
    ensures c != '0' ==> SpansAt([c] + s, offset, false, offset, if last < 0 then offset + 1 else last)
  {
  }

  /** One digit of the right-to-left pass: round it away behind the cut, or add the carry to it. */
  method RoundDigit(digit: char, carry: nat, leading: bool, behindCut: bool, mode: RoundingMode)
    returns (r: char, memo: nat)
    requires digit <= '9' && carry <= 1 && (leading ==> digit == '0' && !behindCut)
    ensures r <= '9' && memo <= 1 && (leading ==> memo == 0)
    ensures IsDigit(digit) ==>
      && IsDigit(r)
      && (behindCut ==> r == '0' && memo == if mode == ROUND && digit >= '5' then 1 else 0)
      && (!behindCut ==> DigitOf(r) + 10 * memo == DigitOf(digit) + carry)
  {
    var c := digit as int;
    memo := 0;
    if !leading {
      c := c + carry;
      if behindCut {
        var ceil := mode == ROUND && c >= '5' as int && !(c == '5' as int && carry != 0);
        c := if ceil then '9' as int + 1 else '0' as int;
      }
      if c > '9' as int {
        c := '0' as int;
        memo := 1;
      }
    } else if carry != 0 {
      c := '1' as int;
    }
    r := c as char;
  }

  /** The buffer after the positions from i + 1 on have been processed. */
  ghost predicate Passed(mode: RoundingMode, digits: string, cut: nat, i: int, buffer: string, memo: nat,
                         allZeros: bool, first: int, last: int) {
    && AllDigits(digits) && |buffer| == |digits| && -1 <= i < |digits| && memo <= 1
    && buffer[..i + 1] == digits[..i + 1]
    && IsRoundedFrom(mode, digits, cut, i + 1, buffer[i + 1..], memo)
    && SpansAt(buffer[i + 1..], i + 1, allZeros, first, last)
    && (allZeros <==> last < 0) && (allZeros ==> last == -1)
    && (i == -1 ==> memo == 0)
  }

  lemma PassStarts(mode: RoundingMode, digits: string, cut: nat, first: int)
    requires AllDigits(digits) && digits != []
    ensures Passed(mode, digits, cut, |digits| - 1, digits, 0, true, first, -1)
  {
    RoundingStarts(mode, digits, cut);
    NothingSpans(|digits|, first);
    assert digits[|digits|..] == [];
    hide IsRoundedFrom, SpansAt;
  }

  lemma PassStep(mode: RoundingMode, digits: string, cut: nat, i: nat, buffer: string, carry: nat,
                 allZeros: bool, first: int, last: int, c: char, memo: nat)
    requires Passed(mode, digits, cut, i, buffer, carry, allZeros, first, last)
    requires IsDigit(c) && memo <= 1 && (i == 0 ==> memo == 0)
    requires i >= cut ==> c == '0' && memo == Up(mode, digits, i)
    requires i < cut ==> DigitOf(c) + 10 * memo == DigitOf(digits[i]) + carry
    ensures c == '0' ==> Passed(mode, digits, cut, i - 1, buffer[i := c], memo, allZeros, first, last)
    ensures c != '0' ==>
      Passed(mode, digits, cut, i - 1, buffer[i := c], memo, false, i, if last < 0 then i + 1 else last)
  {
    var suffix := buffer[i + 1..];
    assert buffer[i := c][i..] == [c] + suffix;
    assert buffer[i := c][..i] == digits[..i];
    hide IsRoundedFrom, SpansAt, Up, DigitOf;
    SpansCons(c, suffix, i, allZeros, first, last);
    if i >= cut {
      CutStep(mode, digits, cut, i, suffix, carry);
    } else {
      CarryStep(mode, digits, cut, i, suffix, carry, c, memo);
    }
  }

  lemma PassEnds(mode: RoundingMode, digits: string, cut: nat, buffer: string, memo: nat,
                 allZeros: bool, first: int, last: int)
    requires Passed(mode, digits, cut, -1, buffer, memo, allZeros, first, last) && digits != [] && cut > 0
    ensures IsRounded(mode, digits, cut, buffer) && Spans(buffer, allZeros, first, last)
  {
    assert buffer[0..] == buffer;
    RoundingEnds(mode, digits, cut, buffer);
    SpansWhole(buffer, allZeros, first, last);
  }

  lemma UntouchedDigit(mode: RoundingMode, digits: string, cut: nat, i: int, buffer: string, carry: nat,
                       allZeros: bool, first: int, last: int)
    requires Passed(mode, digits, cut, i, buffer, carry, allZeros, first, last) && 0 <= i
    ensures i < |buffer| == |digits| && buffer[i] == digits[i] && IsDigit(buffer[i]) && carry <= 1
  {
    assert buffer[..i + 1][i] == digits[..i + 1][i];
  }

  /** Rounds the digits at `cut` from right to left, carrying as it goes. */
  method RoundDigits(chars: array<char>, mode: RoundingMode, cut: nat, firstDigit: int)
    returns (digitsStart: int, digitsEnd: int, allZeros: bool)
    requires chars.Length > 0 && chars[0] == '0' && cut > 0
    requires forall k :: 0 <= k < chars.Length ==> chars[k] <= '9'
    modifies chars
    ensures AllDigits(old(chars[..])) ==>
      IsRounded(mode, old(chars[..]), cut, chars[..]) && Spans(chars[..], allZeros, digitsStart, digitsEnd)
    ensures allZeros ==> digitsStart == firstDigit && digitsEnd < 0
    ensures !allZeros ==> 0 <= digitsStart
    ensures digitsEnd <= chars.Length
  {
    hide Passed, IsRounded, Spans;
    ghost var digits := chars[..];
    digitsStart, digitsEnd, allZeros := firstDigit, -1, true;
    var i, memo: nat := chars.Length - 1, 0;
    if AllDigits(digits) {
      PassStarts(mode, digits, cut, firstDigit);
    }
    while i >= 0
      invariant -1 <= i < chars.Length && memo <= 1 && (i >= 0 ==> chars[0] == '0')
      invariant forall k :: 0 <= k < chars.Length ==> chars[k] <= '9'
      invariant AllDigits(digits) ==> Passed(mode, digits, cut, i, chars[..], memo, allZeros, digitsStart, digitsEnd)
      invariant allZeros ==> digitsStart == firstDigit && digitsEnd < 0
      invariant !allZeros ==> 0 <= digitsStart
      invariant digitsEnd <= chars.Length
    {
      ghost var buffer, carry := chars[..], memo;
      if AllDigits(digits) {
        UntouchedDigit(mode, digits, cut, i, buffer, memo, allZeros, digitsStart, digitsEnd);
      }
      var c;
      c, memo := RoundDigit(chars[i], memo, i == 0, i >= cut, mode);
      chars[i] := c;
      assert chars[..] == buffer[i := c];
      if AllDigits(digits) {
        PassStep(mode, digits, cut, i, buffer, carry, allZeros, digitsStart, digitsEnd, c, memo);
      }
      if c != '0' {
        allZeros := false;
        digitsStart := i;
        digitsEnd := if digitsEnd < 0 then i + 1 else digitsEnd;
      }
      i := i - 1;
    }
    if AllDigits(digits) {
      PassEnds(mode, digits, cut, chars[..], memo, allZeros, digitsStart, digitsEnd);
    }
  }

  lemma NothingSpans(offset: int, first: int)
    ensures SpansAt([], offset, true, first, -1)
  {
  }

  lemma SpansWhole(s: string, allZeros: bool, first: int, last: int)
    requires SpansAt(s, 0, allZeros, first, last)
    ensures Spans(s, allZeros, first, last)
  {
  }

  lemma RoundingStarts(mode: RoundingMode, digits: string, cut: nat)
    requires AllDigits(digits)
    ensures IsRoundedFrom(mode, digits, cut, |digits|, [], 0)
  {
    var p := Min(cut, |digits|);
    assert p == |digits| ==> digits[|digits|..p] == [];
  }

  lemma RoundingEnds(mode: RoundingMode, digits: string, cut: nat, r: string)
    requires AllDigits(digits) && IsRoundedFrom(mode, digits, cut, 0, r, 0) && digits != [] && cut > 0
    ensures IsRounded(mode, digits, cut, r)
  {
    hide DigitsValue, Pow10, Up;
    assert digits[0..Min(cut, |digits|)] == digits[..Min(cut, |digits|)];
  }

  // ----- copying the digits ------------------------------------------------

  /** The first t characters of the body without the point. */
  function Copied(str: string, t: nat): string
    requires t <= |Body(str)|
  {
    var dot := IndexOf(Body(str), '.');
    if dot == -1 || t <= dot then Body(str)[..t] else Body(str)[..dot] + Body(str)[dot + 1..t]
  }

  predicate DotPassed(str: string, t: int) {
    -1 != IndexOf(Body(str), '.') < t
  }

  lemma CopiedBefore(str: string, t: nat)
    requires t < |Body(str)| && (IndexOf(Body(str), '.') == -1 || t < IndexOf(Body(str), '.'))
    ensures Copied(str, t + 1) == Copied(str, t) + [Body(str)[t]] && Copied(str, t + 1) <= Whole(str) + Fraction(str)
    ensures Body(str)[t] != '.'
  {
    hide IndexOf, Body;
  }

  lemma CopiedBehind(str: string, t: nat)
    requires t < |Body(str)| && -1 != IndexOf(Body(str), '.') < t && '.' !in Fraction(str)
    ensures Copied(str, t + 1) == Copied(str, t) + [Body(str)[t]] && Copied(str, t + 1) <= Whole(str) + Fraction(str)
    ensures Body(str)[t] != '.'
  {
    hide IndexOf, Body;
    var body, dot := Body(str), IndexOf(Body(str), '.');
    assert body[dot + 1..t + 1] == body[dot + 1..t] + [body[t]];
    assert body[dot + 1..t + 1] == body[dot + 1..][..t - dot];
    assert body[t] == body[dot + 1..][t - dot - 1];
  }

  lemma CopiedStep(str: string, t: nat)
    requires t < |Body(str)|
    requires '.' !in Fraction(str)
    ensures Copied(str, t + 1) == if Body(str)[t] == '.' then Copied(str, t) else Copied(str, t) + [Body(str)[t]]
    ensures Body(str)[t] == '.' <==> t == IndexOf(Body(str), '.')
    ensures Body(str)[t] == '.' ==> Copied(str, t) == Whole(str)
    ensures Copied(str, t + 1) <= Whole(str) + Fraction(str)
  {
    var dot := IndexOf(Body(str), '.');
    if t == dot {
      hide IndexOf, Body;
    } else if dot == -1 || t < dot {
      hide *;
      CopiedBefore(str, t);
    } else {
      hide *;
      CopiedBehind(str, t);
    }
  }

  lemma BodyHasDot(str: string)
    ensures '.' in str <==> '.' in Body(str)
  {
    assert Negative(str) ==> str == ['-'] + str[1..];
  }

  lemma CopiedAll(str: string)
    ensures Copied(str, |Body(str)|) == Whole(str) + Fraction(str)
    ensures Copied(str, 0) == ""
    ensures |Whole(str) + Fraction(str)| == |Body(str)| - if '.' in str then 1 else 0
  {
    BodyHasDot(str);
    var body, dot := Body(str), IndexOf(Body(str), '.');
    hide IndexOf, Body;
    assert body[..|body|] == body;
    if dot != -1 {
      assert body[dot + 1..|body|] == body[dot + 1..];
      assert body[dot] in body;
    }
  }

  /** Where the first significant digit of the buffer is; 1 if there is none. */
  function FirstDigit(digits: string): (k: nat)
    ensures k >= 1
  {
    var k := LeadingZeroCount(digits);
    if k < |digits| then 1 + k else 1
  }

  lemma LeadingZeroCountIs(s: string, k: nat)
    requires k < |s| && s[k] != '0' && forall i :: 0 <= i < k ==> s[i] == '0'
    ensures LeadingZeroCount(s) == k
  {
    assert s[LeadingZeroCount(s)..] == [] || s[LeadingZeroCount(s)] != '0';
  }

  /** The scan's first significant digit so far: -1 while only zeros have been copied. */
  ghost predicate FirstSoFar(copied: string, digitsStart: int) {
    if digitsStart < 0 then digitsStart == -1 && forall k :: 0 <= k < |copied| ==> copied[k] == '0'
    else
      && 1 <= digitsStart <= |copied| && copied[digitsStart - 1] != '0'
      && forall k :: 0 <= k < digitsStart - 1 ==> copied[k] == '0'
  }

  lemma FirstSoFarStep(copied: string, digitsStart: int, c: char)
    requires FirstSoFar(copied, digitsStart)
    ensures FirstSoFar(copied + [c], if c != '0' && digitsStart < 0 then |copied| + 1 else digitsStart)
  {
  }

  lemma FirstSoFarAll(copied: string, digitsStart: int)
    requires FirstSoFar(copied, digitsStart)
    ensures FirstDigit(copied) == if digitsStart < 0 then 1 else digitsStart
  {
    if digitsStart >= 0 {
      LeadingZeroCountIs(copied, digitsStart - 1);
    }
  }

  method FindDot(str: string) returns (strDot: nat)
    ensures strDot <= |str| && '.' !in str[..strDot] && (strDot < |str| ==> str[strDot] == '.')
  {
    strDot := 0;
    while strDot < |str| && str[strDot] != '.'
      invariant 0 <= strDot <= |str| && '.' !in str[..strDot]
    {
      strDot := strDot + 1;
    }
  }

  lemma NotPlain(str: string, t: nat)
    requires t < |Body(str)| && '.' !in Fraction(str)
    requires Body(str)[t] != '.' && !IsDigit(Body(str)[t])
    ensures !IsPlain(str)
  {
    CopiedStep(str, t);
    var copied := Copied(str, t);
    assert Copied(str, t + 1)[|copied|] == Body(str)[t];
    hide Copied, Whole, Fraction, Body, IndexOf, IsDigit;
    assert (Whole(str) + Fraction(str))[|copied|] == Body(str)[t];
  }

  /** The copying loop in front of body character t: what is copied, the point, the first digit. */
  ghost predicate Copying(str: string, t: int, buffer: string, i: int, afterDot: int, digitsStart: int) {
    && 0 <= t <= |Body(str)|
    && var copied := Copied(str, t);
    && copied <= Whole(str) + Fraction(str) && AllDigits(copied)
    && |buffer| == 1 + |Whole(str) + Fraction(str)|
    && i == 1 + |copied| && buffer[..i] == "0" + copied
    && FirstSoFar(copied, digitsStart)
    && afterDot == if DotPassed(str, t) then 1 + |Whole(str)| else |buffer|
  }

  lemma CopyingStarts(str: string, buffer: string)
    requires |buffer| == 1 + |Whole(str) + Fraction(str)| && buffer[0] == '0'
    ensures Copying(str, 0, buffer, 1, |buffer|, -1)
  {
    CopiedAll(str);
    hide Whole, Fraction, IndexOf;
  }

  lemma CopyingPoint(str: string, t: int, buffer: string, i: int, afterDot: int, digitsStart: int)
    requires Copying(str, t, buffer, i, afterDot, digitsStart) && t < |Body(str)| && '.' !in Fraction(str)
    requires Body(str)[t] == '.'
    ensures Copying(str, t + 1, buffer, i, i, digitsStart)
  {
    CopiedStep(str, t);
    DotPassedStep(str, t);
    hide Copied, Whole, Fraction, Body, IndexOf, FirstSoFar, DotPassed, AllDigits;
  }

  lemma CopyingDigit(str: string, t: int, buffer: string, i: int, afterDot: int, digitsStart: int)
    requires Copying(str, t, buffer, i, afterDot, digitsStart) && t < |Body(str)| && '.' !in Fraction(str)
    requires Body(str)[t] != '.' && IsDigit(Body(str)[t])
    ensures var c := Body(str)[t];
      && 1 <= i < |buffer|
      && Copying(str, t + 1, buffer[i := c], i + 1, afterDot, if c != '0' && digitsStart < 0 then i else digitsStart)
  {
    CopiedStep(str, t);
    DotPassedStep(str, t);
    hide Copied, Whole, Fraction, Body, IndexOf, FirstSoFar, DotPassed, AllDigits;
    var c := Body(str)[t];
    FirstSoFarStep(Copied(str, t), digitsStart, c);
    CopiedGrows(buffer, Copied(str, t), Whole(str) + Fraction(str), i, c);
  }

  lemma CopiedGrows(buffer: string, copied: string, all: string, i: int, c: char)
    requires copied + [c] <= all && |buffer| == 1 + |all| && i == 1 + |copied| && buffer[..i] == "0" + copied
    ensures i < |buffer| && buffer[i := c][..i + 1] == "0" + (copied + [c])
    ensures AllDigits(copied) && IsDigit(c) ==> AllDigits(copied + [c])
  {
    assert |copied + [c]| <= |all|;
    assert buffer[i := c][..i + 1] == buffer[..i] + [c];
  }

  lemma CopyingStep(str: string, t: int, buffer: string, i: int, afterDot: int, digitsStart: int)
    requires Copying(str, t, buffer, i, afterDot, digitsStart) && t < |Body(str)| && '.' !in Fraction(str)
    ensures var c := Body(str)[t];
      if c == '.' then Copying(str, t + 1, buffer, i, i, digitsStart)
      else if !IsDigit(c) then !IsPlain(str)
      else
        && 1 <= i < |buffer|
        && Copying(str, t + 1, buffer[i := c], i + 1, afterDot, if c != '0' && digitsStart < 0 then i else digitsStart)
  {
    hide Copying, Body, Fraction, IsPlain;
    CopyingInRange(str, t, buffer, i, afterDot, digitsStart);
    var c := Body(str)[t];
    if c == '.' {
      CopyingPoint(str, t, buffer, i, afterDot, digitsStart);
    } else if !IsDigit(c) {
      NotPlain(str, t);
    } else {
      CopyingDigit(str, t, buffer, i, afterDot, digitsStart);
    }
  }

  lemma CopyingInRange(str: string, t: int, buffer: string, i: int, afterDot: int, digitsStart: int)
    requires Copying(str, t, buffer, i, afterDot, digitsStart)
    ensures 0 <= t <= |Body(str)|
  {
  }

  lemma CopyingEnds(str: string, buffer: string, i: int, afterDot: int, digitsStart: int)
    requires Copying(str, |Body(str)|, buffer, i, afterDot, digitsStart)
    ensures IsPlain(str) && buffer == "0" + (Whole(str) + Fraction(str)) && afterDot == 1 + |Whole(str)|
    ensures FirstDigit(Whole(str) + Fraction(str)) == if digitsStart < 0 then 1 else digitsStart
  {
    CopiedAll(str);
    FirstSoFarAll(Copied(str, |Body(str)|), digitsStart);
    assert buffer[..i] == buffer;
    assert !DotPassed(str, |Body(str)|) ==> Fraction(str) == "";
    hide Copied, Whole, Fraction, IndexOf, FirstSoFar, DotPassed;
  }

  lemma BodyShape(str: string)
    ensures var strStart := if Negative(str) then 1 else 0;
      strStart <= |str| && Body(str) == str[strStart..]
  {
  }

  lemma NotADigit(c: char)
    ensures IsDigit(c) <==> !(c < '0' || c > '9')
  {
  }

  /** Where the copying loop is in front of body character t, whatever the number of points. */
  ghost predicate InBuffer(body: string, t: int, length: int, i: int, afterDot: int, digitsStart: int) {
    && 0 <= t <= |body| && length == |body| + (if '.' in body then 0 else 1)
    && 1 <= i <= length && i <= 1 + t - (if '.' in body[..t] then 1 else 0)
    && 1 <= afterDot <= length && (digitsStart == -1 || 1 <= digitsStart)
    && forall k :: 0 <= k < t ==> IsDigit(body[k]) || body[k] == '.'
  }

  lemma InBufferStep(body: string, t: int, length: int, i: int, afterDot: int, digitsStart: int)
    requires InBuffer(body, t, length, i, afterDot, digitsStart) && t < |body|
    ensures body[t] == '.' ==> InBuffer(body, t + 1, length, i, i, digitsStart)
    ensures IsDigit(body[t]) ==>
      && i < length && InBuffer(body, t + 1, length, i + 1, afterDot, digitsStart)
      && InBuffer(body, t + 1, length, i + 1, afterDot, i)
  {
    assert body[..t + 1] == body[..t] + [body[t]];
    if IsDigit(body[t]) && '.' in body && '.' !in body[..t] {
      PointAhead(body, t);
    }
  }

  lemma PointAhead(body: string, t: nat)
    requires t < |body| && '.' in body && '.' !in body[..t] && body[t] != '.'
    ensures t + 1 < |body|
  {
    assert forall k :: 0 <= k < t ==> body[..t][k] == body[k];
    var k :| 0 <= k < |body| && body[k] == '.';
    assert k > t;
  }

  lemma InBufferStarts(body: string)
    ensures var length := |body| + if '.' in body then 0 else 1; InBuffer(body, 0, length, 1, length, -1)
  {
    assert body[..0] == [];
  }

  lemma InBufferEnds(str: string, length: int, i: int, afterDot: int, digitsStart: int)
    requires InBuffer(Body(str), |Body(str)|, length, i, afterDot, digitsStart)
    ensures IsDotted(str) && 1 <= afterDot <= length && (digitsStart == -1 || 1 <= digitsStart)
  {
  }

  lemma NotDotted(str: string, t: nat)
    requires t < |Body(str)| && !IsDigit(Body(str)[t]) && Body(str)[t] != '.'
    ensures !IsDotted(str)
  {
  }

  /** A buffer for the digits and one more, which starts with the reserved zero. */
  method NewBuffer(str: string) returns (chars: array<char>)
    ensures fresh(chars) && chars.Length == 1 + |Whole(str) + Fraction(str)| && chars[0] == '0'
    ensures chars.Length == |Body(str)| + if '.' in Body(str) then 0 else 1
    ensures forall k :: 0 <= k < chars.Length ==> chars[k] <= '9'
  {
    var strStart := if Negative(str) then 1 else 0;
    var strEnd := |str|;
    var strDot := FindDot(str);
    var hasDot := strDot < |str|;
    CopiedAll(str);
    BodyHasDot(str);
    assert hasDot <==> '.' in str;
    chars := new char[strEnd - strStart + if hasDot then 0 else 1](_ => '\0');
    chars[0] := '0';
  }

  /** Copies the digits behind a reserved zero, whatever the number of points; fails on any other character. */
  method CopyDigits(str: string) returns (ok: bool, chars: array<char>, afterDot: int, digitsStart: int)
    ensures fresh(chars) && chars.Length > 0 && chars[0] == '0'
    ensures forall k :: 0 <= k < chars.Length ==> chars[k] <= '9'
    ensures ok <==> IsDotted(str)
    ensures ok ==> 1 <= afterDot <= chars.Length && 1 <= digitsStart
    ensures IsPlain(str) ==>
      && chars[..] == "0" + (Whole(str) + Fraction(str))
      && afterDot == 1 + |Whole(str)| && digitsStart == FirstDigit(Whole(str) + Fraction(str))
  {
    hide *;
    BodyShape(str);
    var strStart := if Negative(str) then 1 else 0;
    var strEnd := |str|;
    chars := NewBuffer(str);
    afterDot := chars.Length;
    digitsStart := -1;
    var i, j := 1, strStart;
    CopyingStarts(str, chars[..]);
    InBufferStarts(Body(str));
    DottedIsPlain(str);
    ghost var onePoint := '.' !in Fraction(str);
    while j < strEnd
      invariant strStart <= j <= strEnd && chars[0] == '0'
      invariant forall k :: 0 <= k < chars.Length ==> chars[k] <= '9'
      invariant InBuffer(Body(str), j - strStart, chars.Length, i, afterDot, digitsStart)
      invariant onePoint ==> Copying(str, j - strStart, chars[..], i, afterDot, digitsStart)
    {
      var c := str[j];
      assert c == Body(str)[j - strStart];
      NotADigit(c);
      InBufferStep(Body(str), j - strStart, chars.Length, i, afterDot, digitsStart);
      if onePoint {
        CopyingStep(str, j - strStart, chars[..], i, afterDot, digitsStart);
      }
      if c == '.' {
        afterDot := i;
      } else if c < '0' || c > '9' {
        NotDotted(str, j - strStart);
        return false, chars, afterDot, digitsStart;
      } else {
        ghost var buffer := chars[..];
        chars[i] := c;
        assert chars[..] == buffer[i := c];
        if c != '0' && digitsStart < 0 {
          digitsStart := i;
        }
        i := i + 1;
      }
      j := j + 1;
    }
    InBufferEnds(str, chars.Length, i, afterDot, digitsStart);
    if onePoint {
      CopyingEnds(str, chars[..], i, afterDot, digitsStart);
    }
    if digitsStart < 0 {
      digitsStart := 1;
    }
    ok := true;
  }

  lemma DotPassedStep(str: string, t: nat)
    requires t < |Body(str)| && '.' !in Fraction(str)
    ensures DotPassed(str, t + 1) <==> DotPassed(str, t) || Body(str)[t] == '.'
  {
    CopiedStep(str, t);
    hide IndexOf;
  }

  // ----- printing the buffer -----------------------------------------------

  function Text(negative: bool, whole: string, frac: string): string {
    (if negative then "-" else "") + whole + (if frac == "" then "" else "." + frac)
  }

  method CopyRange(out: array<char>, from: nat, to: nat, chars: string, start: nat, ghost expected: string)
    requires from <= to <= out.Length == |expected| && start + (to - from) <= |chars|
    requires out[..from] == expected[..from]
    requires expected[from..to] == chars[start..start + (to - from)]
    modifies out
    ensures out[..to] == expected[..to]
  {
    var i, j := from, start;
    while i < to
      invariant from <= i <= to && j == start + (i - from)
      invariant out[..i] == expected[..i]
    {
      assert expected[from..to][i - from] == chars[start..start + (to - from)][i - from];
      out[i] := chars[j];
      i, j := i + 1, j + 1;
    }
  }

  /** Writes the point, the digits behind it, and the padding zeros. */
  method EmitFraction(out: array<char>, dot: nat, padStart: nat, padEnd: nat, chars: string, start: nat,
                      ghost expected: string)
    requires dot < padStart <= padEnd == out.Length == |expected| && start + (padStart - dot - 1) <= |chars|
    requires out[..dot] == expected[..dot] && expected[dot] == '.'
    requires expected[dot + 1..padStart] == chars[start..start + (padStart - dot - 1)]
    requires expected[padStart..] == Zeros(padEnd - padStart)
    modifies out
    ensures out[..] == expected
  {
    hide Zeros;
    out[dot] := '.';
    assert out[..dot + 1] == expected[..dot + 1];
    CopyRange(out, dot + 1, padStart, chars, start, expected);
    assert expected[padStart..padEnd] == Zeros(padEnd - padStart)[0..padEnd - padStart];
    CopyRange(out, padStart, padEnd, Zeros(padEnd - padStart), 0, expected);
    assert out[..] == out[..padEnd] && expected[..padEnd] == expected;
  }

  /** Writes the sign, the digits around the point, and the padding zeros into the output buffer. */
  method Emit(chars: string, signNeeded: bool, readStart: nat, afterDot: nat, readEnd: nat, pad: nat)
    returns (text: string)
    requires readStart <= afterDot <= readEnd <= |chars|
    ensures text == Text(signNeeded, chars[readStart..afterDot], chars[afterDot..readEnd] + Zeros(pad))
  {
    hide Text, Zeros;
    var nSign := if signNeeded then 1 else 0;
    var nBeforeDot := nSign + (afterDot - readStart);
    var nAfterDot := if readEnd - afterDot > 0 then readEnd - afterDot else 0;
    var padStart := nBeforeDot + 1 + nAfterDot;
    var padEnd := padStart + pad;
    var isInteger := nAfterDot + pad == 0;
    ghost var whole, frac := chars[readStart..afterDot], chars[afterDot..readEnd] + Zeros(pad);
    ghost var expected := Text(signNeeded, whole, frac);
    TextPositions(signNeeded, whole, chars[afterDot..readEnd], Zeros(pad));
    var out := new char[nBeforeDot + (if isInteger then 0 else 1) + nAfterDot + pad](_ => '\0');
    if signNeeded {
      out[0] := '-';
    }
    CopyRange(out, nSign, nBeforeDot, chars, readStart, expected);
    if !isInteger {
      EmitFraction(out, nBeforeDot, padStart, padEnd, chars, afterDot, expected);
    }
    assert out[..] == out[..out.Length];
    text := out[..];
  }

  /** Where the pieces of a printed number are. */
  lemma TextPositions(negative: bool, whole: string, frac: string, padding: string)
    ensures var t, n := Text(negative, whole, frac + padding), if negative then 1 else 0;
      && |t| == n + |whole| + (if frac + padding == "" then 0 else 1 + |frac| + |padding|)
      && (negative ==> t[0] == '-')
      && t[n..n + |whole|] == whole
      && (frac + padding != "" ==>
        && t[n + |whole|] == '.'
        && t[n + |whole| + 1..n + |whole| + 1 + |frac|] == frac
        && t[n + |whole| + 1 + |frac|..] == padding)
  {
  }

  // ----- the rounded digits denote the rounded number ----------------------

  lemma FirstDigitDecidesHalf(s: string)
    requires s != [] && AllDigits(s)
    ensures s[0] >= '5' <==> 2 * DigitsValue(s) >= Pow10(|s|)
  {
    var t := s[1..];
    assert s == [s[0]] + t;
    assert Pow10(|s|) == 10 * Pow10(|t|);
    DigitsValueCons(s[0], t);
    DigitsValueBound(t);
    hide DigitsValue, Pow10;
    HalfArithmetic(DigitOf(s[0]), Pow10(|t|), DigitsValue(t));
  }

  lemma HalfArithmetic(d: nat, t: nat, rest: nat)
    requires rest < t
    ensures d >= 5 <==> 2 * (d * t + rest) >= 10 * t
  {
    if d >= 5 {
      assert d * t >= 5 * t;
    } else {
      assert d * t <= 4 * t;
    }
  }

  /** Floors of a quotient and of a quotient plus a half. */
  lemma QuotientFloors(q: nat, r: nat, u: nat)
    requires r < u
    ensures ((q * u + r) as real / u as real).Floor == q
    ensures ((q * u + r) as real / u as real + 0.5).Floor == if 2 * r >= u then q + 1 else q
  {
    var x := (q * u + r) as real / u as real;
    var f := r as real / u as real;
    ProductToReal(q, u);
    assert x == q as real + f by {
      assert (q as real + f) * u as real == q as real * u as real + r as real;
    }
    FractionBounds(r, u);
    hide *;
    FloorIs(x, q);
    FloorIs(x + 0.5, if 2 * r >= u then q + 1 else q);
  }

  lemma FractionBounds(r: nat, u: nat)
    requires r < u
    ensures 0.0 <= r as real / u as real < 1.0
    ensures 2 * r >= u <==> r as real / u as real >= 0.5
  {
  }

  lemma ScaleQuotient(v: nat, k: nat)
    ensures Value(Dec(v, k)) == v as real / Pow10(k) as real
  {
    hide Scale, Pow10;
    ScaleSum(k, -(k as int));
    ScaleIsPow10(k);
    PowersOfZero();
    var s, p := Scale(-(k as int)), Pow10(k) as real;
    assert p * s == 1.0;
    assert (v as real * s) * p == v as real * (s * p);
    assert (v as real / p) * p == v as real;
    CancelFactor(v as real * s, v as real / p, p);
  }

  lemma FloorsOfCut(mode: RoundingMode, x: real, v: nat, q: nat, r: nat, u: nat)
    requires r < u && v == q * u + r && x == v as real / u as real
    ensures ToInteger(mode, x) == q + if mode == ROUND && 2 * r >= u then 1 else 0
  {
    QuotientFloors(q, r, u);
  }

  /** The digit value at position `cut`, floored or rounded, is the number before the cut plus the carry. */
  lemma CutFloors(mode: RoundingMode, digits: string, cut: nat)
    requires AllDigits(digits) && cut < |digits|
    ensures var x := Value(Dec(DigitsValue(digits), |digits| - cut));
      ToInteger(mode, x) == DigitsValue(digits[..cut]) + Up(mode, digits, cut)
  {
    hide DigitsValue, Pow10, Value;
    var front, tail := digits[..cut], digits[cut..];
    assert digits == front + tail;
    DigitsValueConcat(front, tail);
    DigitsValueBound(tail);
    FirstDigitDecidesHalf(tail);
    ScaleQuotient(DigitsValue(digits), |tail|);
    FloorsOfCut(mode, Value(Dec(DigitsValue(digits), |tail|)), DigitsValue(digits), DigitsValue(front),
                DigitsValue(tail), Pow10(|tail|));
  }

  lemma ScaledToCut(v: int, cut: nat, afterDot: nat, length: nat)
    ensures Shifted(Value(Dec(v, length - afterDot)), cut - afterDot) == Value(Dec(v, length - cut))
  {
    hide Scale;
    ScaleSum(-(length - afterDot), cut - afterDot);
    assert -(length - afterDot) + (cut - afterDot) == -(length - cut);
    TimesAssociates(v as real, Scale(-(length - afterDot)), Scale(cut - afterDot));
  }

  lemma RoundedValue(mode: RoundingMode, digits: string, cut: nat, afterDot: nat, r: string)
    requires AllDigits(digits) && IsRounded(mode, digits, cut, r) && afterDot <= |digits|
    ensures DigitsReal(r, |digits| - afterDot)
         == RoundAt(mode, DigitsReal(digits, |digits| - afterDot), cut - afterDot)
  {
    RoundedDigits(mode, digits, cut, r);
    hide IsRounded;
    if cut < |digits| {
      RoundedCut(mode, digits, cut, afterDot, r);
    } else {
      RoundedUncut(mode, digits, cut, afterDot, r);
    }
  }

  lemma RoundedDigits(mode: RoundingMode, digits: string, cut: nat, r: string)
    requires AllDigits(digits) && IsRounded(mode, digits, cut, r)
    ensures cut < |digits| ==>
      DigitsValue(r) == (DigitsValue(digits[..cut]) + Up(mode, digits, cut)) * Pow10(|digits| - cut)
    ensures cut >= |digits| ==> DigitsValue(r) == DigitsValue(digits)
  {
    hide DigitsValue;
    assert digits[..|digits|] == digits;
    PowersOfZero();
  }

  lemma RoundedCut(mode: RoundingMode, digits: string, cut: nat, afterDot: nat, r: string)
    requires AllDigits(digits) && AllDigits(r) && afterDot <= |digits| && cut < |digits|
    requires DigitsValue(r) == (DigitsValue(digits[..cut]) + Up(mode, digits, cut)) * Pow10(|digits| - cut)
    ensures DigitsReal(r, |digits| - afterDot)
         == RoundAt(mode, DigitsReal(digits, |digits| - afterDot), cut - afterDot)
  {
    hide Value, Pow10, DigitsValue, Up, ToInteger, Shifted;
    var v, q := DigitsValue(digits), DigitsValue(digits[..cut]) + Up(mode, digits, cut);
    CutFloors(mode, digits, cut);
    ScaledToCut(v, cut, afterDot, |digits|);
    RescaleExact(Dec(q, cut - afterDot), |digits| - cut);
  }

  lemma RoundedUncut(mode: RoundingMode, digits: string, cut: nat, afterDot: nat, r: string)
    requires AllDigits(digits) && AllDigits(r) && afterDot <= |digits| <= cut
    requires DigitsValue(r) == DigitsValue(digits)
    ensures DigitsReal(r, |digits| - afterDot)
         == RoundAt(mode, DigitsReal(digits, |digits| - afterDot), cut - afterDot)
  {
    hide Value, Pow10, DigitsValue, ToInteger, Shifted;
    var v := DigitsValue(digits);
    ScaledToCut(v, cut, afterDot, |digits|);
    var n := NothingToCut(v, cut - |digits|);
    RescaleExact(Dec(v, |digits| - afterDot), cut - |digits|);
    UncutInteger(mode, n);
  }

  lemma NothingToCut(v: nat, k: int) returns (n: int)
    requires k >= 0
    ensures n == v * Pow10(k) && Value(Dec(v, 0 - k)) == n as real
  {
    hide Scale, Pow10;
    ScaleIsPow10(k);
    ProductToReal(v, Pow10(k));
    n := v * Pow10(k);
  }

  lemma UncutInteger(mode: RoundingMode, n: int)
    ensures ToInteger(mode, n as real) == n
  {
    FloorIs(n as real, n);
    FloorIs(n as real + 0.5, n);
  }

  // ----- the printed text --------------------------------------------------

  /** A printed text splits back into its sign, whole part and fraction. */
  lemma TextParts(negative: bool, whole: string, frac: string)
    requires whole != "" && AllDigits(whole) && AllDigits(frac)
    ensures var t := Text(negative, whole, frac);
      Negative(t) == negative && Whole(t) == whole && Fraction(t) == frac && ('.' in t <==> frac != "")
  {
    var t := Text(negative, whole, frac);
    var body := whole + if frac == "" then "" else "." + frac;
    assert t == (if negative then "-" else "") + body;
    assert Negative(t) == negative;
    assert Body(t) == body;
    assert '.' !in whole;
    if frac != "" {
      IndexOfConcat(whole, '.', frac);
      assert body == whole + ['.'] + frac;
    }
  }

  /** The shown part of the buffer, with its padding, denotes the same number as the whole buffer. */
  lemma ShownValue(r: string, readStart: nat, afterDot: nat, readEnd: nat, pad: nat)
    requires AllDigits(r) && readStart <= afterDot <= readEnd <= |r|
    requires forall i :: 0 <= i < readStart ==> r[i] == '0'
    requires forall i :: readEnd <= i < |r| ==> r[i] == '0'
    ensures var whole, frac := r[readStart..afterDot], r[afterDot..readEnd] + Zeros(pad);
      AllDigits(whole + frac) && DigitsReal(whole + frac, |frac|) == DigitsReal(r, |r| - afterDot)
  {
    hide DigitsValue, Scale, Pow10, Zeros;
    var shown := r[readStart..readEnd];
    ShownDigits(r, readStart, readEnd);
    ShownConcat(r, readStart, afterDot, readEnd, pad);
    TrailingZeros(shown, pad);
    DropScale(DigitsValue(shown), |r| - readEnd, readEnd - afterDot);
    DropScale(DigitsValue(shown), pad, readEnd - afterDot);
  }

  lemma ShownConcat(r: string, readStart: nat, afterDot: nat, readEnd: nat, pad: nat)
    requires readStart <= afterDot <= readEnd <= |r|
    ensures r[readStart..afterDot] + (r[afterDot..readEnd] + Zeros(pad)) == r[readStart..readEnd] + Zeros(pad)
    ensures |r[afterDot..readEnd] + Zeros(pad)| == readEnd - afterDot + pad
  {
    assert r[readStart..readEnd] == r[readStart..afterDot] + r[afterDot..readEnd];
  }

  lemma ShownDigits(r: string, readStart: nat, readEnd: nat)
    requires AllDigits(r) && readStart <= readEnd <= |r|
    requires forall i :: 0 <= i < readStart ==> r[i] == '0'
    requires forall i :: readEnd <= i < |r| ==> r[i] == '0'
    ensures DigitsValue(r) == DigitsValue(r[readStart..readEnd]) * Pow10(|r| - readEnd)
  {
    hide DigitsValue, Pow10;
    var front, shown, back := r[..readStart], r[readStart..readEnd], r[readEnd..];
    assert r == front + (shown + back);
    ZerosValue(front);
    ZerosValue(back);
    DigitsValueConcat(shown, back);
    DigitsValueConcat(front, shown + back);
  }

  lemma DropScale(v: nat, k: int, decimals: int)
    requires k >= 0
    ensures (v * Pow10(k)) as real * Scale(-(decimals + k)) == v as real * Scale(-decimals)
  {
    hide Scale, Pow10;
    ProductToReal(v, Pow10(k));
    ScaleIsPow10(k);
    ScaleSum(k, -(decimals + k));
    assert k + -(decimals + k) == -decimals;
    TimesAssociates(v as real, Scale(k), Scale(-(decimals + k)));
  }

  lemma {:induction false} ZeroValue(s: string)
    requires AllDigits(s)
    ensures DigitsValue(s) == 0 <==> forall i :: 0 <= i < |s| ==> s[i] == '0'
  {
    if s != [] {
      var t := s[..|s| - 1];
      ZeroValue(t);
      assert s == t + [s[|s| - 1]];
    }
  }

  lemma ZeroReal(s: string, decimals: int)
    requires AllDigits(s)
    ensures DigitsReal(s, decimals) == 0.0 <==> forall i :: 0 <= i < |s| ==> s[i] == '0'
  {
    ZeroValue(s);
    hide Scale, DigitsValue;
    SignOfProduct(DigitsValue(s) as real, Scale(-decimals));
  }

  // ----- significant digits ------------------------------------------------

  /** The power of ten of the leading significant digit. */
  function LeadingExponent(str: string): int {
    |Whole(str)| - 1 - LeadingZeroCount(Whole(str) + Fraction(str))
  }

  lemma LeadingDigitBounds(s: string)
    requires AllDigits(s) && s != [] && s[0] != '0'
    ensures Pow10(|s| - 1) <= DigitsValue(s) < Pow10(|s|)
  {
    hide DigitsValue, Pow10;
    assert s == [s[0]] + s[1..];
    DigitsValueCons(s[0], s[1..]);
    DigitsValueBound(s);
    AtLeast(DigitOf(s[0]), Pow10(|s| - 1));
  }

  lemma AtLeast(d: nat, t: nat)
    requires d >= 1
    ensures d * t >= t
  {
  }

  lemma ScaledBounds(v: nat, n: int, k: int)
    requires n >= 1 && Pow10(n - 1) <= v < Pow10(n)
    ensures Scale(n - 1 - k) <= Value(Dec(v, k)) < Scale(n - k)
  {
    hide Scale, Pow10, Value;
    PowerScaled(n - 1, k);
    PowerScaled(n, k);
    ValueOrder(v, Pow10(n - 1), k);
    ValueOrder(v, Pow10(n), k);
  }

  lemma PowerScaled(n: nat, k: int)
    ensures Value(Dec(Pow10(n), k)) == Scale(n - k)
  {
    hide Scale, Pow10;
    ScaleIsPow10(n);
    ScaleSum(n, -k);
    assert n + -k == n - k;
  }

  /** LeadingExponent is the decimal exponent of a number that is not zero. */
  lemma LeadingExponentIs(str: string)
    requires IsPlain(str) && Magnitude(str) != 0.0
    ensures Scale(LeadingExponent(str)) <= Magnitude(str) < Scale(LeadingExponent(str) + 1)
  {
    var all, k := Whole(str) + Fraction(str), |Fraction(str)|;
    var z := LeadingZeroCount(all);
    hide Whole, Fraction, Scale, DigitsValue, Pow10, Value;
    ZeroReal(all, k);
    assert z < |all|;
    assert all == all[..z] + all[z..];
    ZerosValue(all[..z]);
    DigitsValueConcat(all[..z], all[z..]);
    LeadingDigitBounds(all[z..]);
    ScaledBounds(DigitsValue(all), |all| - z, k);
    assert |all| - z - 1 - k == LeadingExponent(str) && |all| - z - k == LeadingExponent(str) + 1;
  }

  // ----- the whole function ------------------------------------------------

  /** The number of decimals to round to. */
  function Places(str: string, counting: CountingMode, n: int): int {
    if counting == DECIMAL_PLACES then n else n - 1 - LeadingExponent(str)
  }

  /** The number of decimals shown when padding to n significant digits. */
  ghost function PaddedDecimals(str: string, n: int, text: string): int
    requires IsPlain(str)
  {
    Max(0, n - 1 - if Magnitude(str) == 0.0 then |Whole(str)| - 1 else LeadingExponent(text))
  }

  /** No superfluous zero in front of the whole part, and a point only in front of a fraction. */
  predicate IsTidy(text: string) {
    && Whole(text) != "" && (Whole(text)[0] == '0' ==> Whole(text) == "0")
    && ('.' in text <==> Fraction(text) != "")
  }

  predicate EndsInZero(s: string) {
    s != "" && s[|s| - 1] == '0'
  }

  /** What decimalToPrecision promises about its result. */
  ghost predicate Formats(str: string, mode: RoundingMode, n: nat, counting: CountingMode, padding: PaddingMode,
                          text: string)
    requires IsPlain(str)
  {
    && IsPlain(text)
    && Magnitude(text) == RoundAt(mode, Magnitude(str), Places(str, counting, n))
    && (Negative(text) <==> Negative(str) && Magnitude(text) != 0.0)
    && IsTidy(text)
    && (padding == NO_PADDING ==> !EndsInZero(Fraction(text)))
    && (padding == PAD_WITH_ZERO && counting == DECIMAL_PLACES ==> |Fraction(text)| == n)
    && (padding == PAD_WITH_ZERO && counting == SIGNIFICANT_DIGITS && n > 0 ==>
      |Fraction(text)| == PaddedDecimals(str, n, text))
  }

  /** The buffer after rounding: the digits of str cut at `cut`, and where its significant digits are. */
  ghost predicate Buffer(str: string, mode: RoundingMode, cut: nat, buffer: string,
                         allZeros: bool, first: int, last: int) {
    && AllDigits(Whole(str) + Fraction(str)) && AllDigits("0" + (Whole(str) + Fraction(str)))
    && IsRounded(mode, "0" + (Whole(str) + Fraction(str)), cut, buffer)
    && |buffer| == 1 + |Whole(str)| + |Fraction(str)|
    && Spans(buffer, allZeros, first, last)
  }

  function ReadStart(allZeros: bool, first: int, afterDot: nat): int {
    if first >= afterDot || allZeros then afterDot - 1 else first
  }

  function ReadEnd(last: int, afterDot: nat): int {
    if last < afterDot then afterDot else last
  }

  lemma ReadRange(buffer: string, allZeros: bool, first: int, last: int, afterDot: nat)
    requires Spans(buffer, allZeros, first, last) && 1 <= afterDot <= |buffer|
    ensures 0 <= ReadStart(allZeros, first, afterDot) < afterDot <= ReadEnd(last, afterDot) <= |buffer|
    ensures forall i :: 0 <= i < ReadStart(allZeros, first, afterDot) ==> buffer[i] == '0'
    ensures forall i :: ReadEnd(last, afterDot) <= i < |buffer| ==> buffer[i] == '0'
    ensures var whole := buffer[ReadStart(allZeros, first, afterDot)..afterDot]; whole[0] == '0' ==> whole == "0"
    ensures ReadEnd(last, afterDot) > afterDot ==> buffer[ReadEnd(last, afterDot) - 1] != '0'
  {
  }

  /** The text printed from the buffer with `pad` zeros of padding. */
  function Shown(buffer: string, negative: bool, allZeros: bool, first: int, last: int, afterDot: nat, pad: nat): string
    requires 0 <= ReadStart(allZeros, first, afterDot) <= afterDot <= ReadEnd(last, afterDot) <= |buffer|
  {
    Text(negative, buffer[ReadStart(allZeros, first, afterDot)..afterDot],
         buffer[afterDot..ReadEnd(last, afterDot)] + Zeros(pad))
  }

  /** The printed text denotes the number in the buffer, which is the rounded number. */
  lemma ShownIsRounded(str: string, mode: RoundingMode, cut: nat, buffer: string, allZeros: bool, first: int, last: int,
                       negative: bool, pad: nat)
    requires Buffer(str, mode, cut, buffer, allZeros, first, last)
    ensures var afterDot := 1 + |Whole(str)|;
      && 0 <= ReadStart(allZeros, first, afterDot) <= afterDot <= ReadEnd(last, afterDot) <= |buffer|
      && var text := Shown(buffer, negative, allZeros, first, last, afterDot, pad);
      && IsPlain(text) && IsPlain(str)
      && Magnitude(text) == RoundAt(mode, Magnitude(str), cut - afterDot)
      && (Magnitude(text) == 0.0 <==> allZeros)
      && Negative(text) == negative && IsTidy(text)
      && |Fraction(text)| == ReadEnd(last, afterDot) - afterDot + pad
      && (pad == 0 ==> !EndsInZero(Fraction(text)))
      && Whole(text) == buffer[ReadStart(allZeros, first, afterDot)..afterDot]
      && Fraction(text) == buffer[afterDot..ReadEnd(last, afterDot)] + Zeros(pad)
  {
    hide RoundAt, DigitsReal, Text, IsRounded, Whole, Fraction, Negative;
    var all, afterDot := Whole(str) + Fraction(str), 1 + |Whole(str)|;
    var whole := buffer[ReadStart(allZeros, first, afterDot)..afterDot];
    var frac := buffer[afterDot..ReadEnd(last, afterDot)] + Zeros(pad);
    BufferDigits(mode, "0" + all, cut, buffer);
    ReadRange(buffer, allZeros, first, last, afterDot);
    ShownValue(buffer, ReadStart(allZeros, first, afterDot), afterDot, ReadEnd(last, afterDot), pad);
    TextParts(negative, whole, frac);
    RoundedValue(mode, "0" + all, cut, afterDot, buffer);
    ReservedZero(all, |Fraction(str)|);
    ZeroReal(buffer, |buffer| - afterDot);
  }

  lemma BufferDigits(mode: RoundingMode, digits: string, cut: nat, buffer: string)
    requires AllDigits(digits) && IsRounded(mode, digits, cut, buffer)
    ensures AllDigits(buffer) && |buffer| == |digits|
  {
  }

  lemma ReservedZero(s: string, decimals: int)
    requires AllDigits(s)
    ensures AllDigits("0" + s) && DigitsReal("0" + s, decimals) == DigitsReal(s, decimals)
  {
    hide Scale, DigitsValue, Pow10;
    LeadingZeros(1, s);
    assert Zeros(1) == "0";
  }

  lemma RoundAtZero(mode: RoundingMode, k: int)
    ensures RoundAt(mode, 0.0, k) == 0.0
  {
    hide Scale;
    assert 0.0 * Scale(k) == 0.0;
    FloorIs(0.0, 0);
    FloorIs(0.5, 0);
  }

  /** The position the digits are cut at. */
  function CutAt(str: string, counting: CountingMode, n: nat): nat {
    n + if counting == DECIMAL_PLACES then 1 + |Whole(str)| else FirstDigit(Whole(str) + Fraction(str))
  }

  /** Cutting the buffer there rounds to the intended number of decimals. */
  lemma CutIsPlaces(str: string, mode: RoundingMode, counting: CountingMode, n: nat)
    requires IsPlain(str)
    ensures RoundAt(mode, Magnitude(str), CutAt(str, counting, n) - (1 + |Whole(str)|))
         == RoundAt(mode, Magnitude(str), Places(str, counting, n))
  {
    var all := Whole(str) + Fraction(str);
    var k := CutAt(str, counting, n) - (1 + |Whole(str)|);
    if k != Places(str, counting, n) {
      assert LeadingZeroCount(all) == |all|;
      hide RoundAt, DigitsReal;
      ZeroReal(all, |Fraction(str)|);
      RoundAtZero(mode, k);
      RoundAtZero(mode, Places(str, counting, n));
    }
  }

  /** Nothing significant is left behind the cut. */
  lemma LastBeforeCut(str: string, mode: RoundingMode, cut: nat, buffer: string, allZeros: bool, first: int, last: int)
    requires Buffer(str, mode, cut, buffer, allZeros, first, last)
    ensures last <= cut
  {
    hide DigitsValue, Pow10, Whole, Fraction;
  }

  /** Bounds of the rounded value when all digits in front of position d are zero. */
  lemma RoundedBound(mode: RoundingMode, digits: string, cut: nat, d: nat, r: string)
    requires AllDigits(digits) && IsRounded(mode, digits, cut, r) && d < |digits| && d < cut
    requires digits[d] != '0' && forall i :: 0 <= i < d ==> digits[i] == '0'
    ensures 0 < DigitsValue(r) <= Pow10(|digits| - d)
  {
    hide DigitsValue, Pow10;
    var p := Min(cut, |digits|);
    HeadBound(digits[..p], d);
    hide Up;
    assert Up(mode, digits, cut) <= 1 by { UpAtMostOne(mode, digits, cut); }
    Pow10Add(p - d, |digits| - p);
    hide AllDigits;
    ProductBound(DigitsValue(digits[..p]) + Up(mode, digits, cut), Pow10(p - d), Pow10(|digits| - p));
  }

  lemma UpAtMostOne(mode: RoundingMode, digits: string, cut: nat)
    ensures Up(mode, digits, cut) <= 1
  {
  }

  lemma HeadBound(head: string, d: nat)
    requires AllDigits(head) && d < |head| && head[d] != '0' && forall i :: 0 <= i < d ==> head[i] == '0'
    ensures 0 < DigitsValue(head) < Pow10(|head| - d)
  {
    hide DigitsValue, Pow10;
    var tail := head[d..];
    assert head == head[..d] + tail && tail[0] != '0';
    ZerosValue(head[..d]);
    DigitsValueConcat(head[..d], tail);
    LeadingDigitBounds(tail);
  }

  lemma ProductBound(a: nat, b: nat, c: nat)
    requires 0 < a <= b && c > 0
    ensures 0 < a * c <= b * c
  {
  }

  /** A digit string whose value is the least its first significant digit allows has no other one. */
  lemma OnlyOneDigit(r: string, first: nat, last: nat, d: nat)
    requires AllDigits(r) && Spans(r, false, first, last)
    requires first < d <= |r| && DigitsValue(r) <= Pow10(|r| - d)
    ensures first == d - 1 && last == first + 1
  {
    hide DigitsValue, Pow10;
    var rest := r[first + 1..];
    assert r == r[..first] + ([r[first]] + rest);
    ZerosValue(r[..first]);
    DigitsValueConcat(r[..first], [r[first]] + rest);
    DigitsValueCons(r[first], rest);
    AtLeast(DigitOf(r[first]), Pow10(|rest|));
    assert DigitsValue(r) >= Pow10(|rest|) + DigitsValue(rest);
    Pow10Grows(|r| - d, |rest|);
    ZeroValue(rest);
    assert forall i :: first + 1 <= i < |r| ==> r[i] == rest[i - first - 1];
  }

  /** Rounding to n > 0 significant digits leaves between one and n of them. */
  lemma SignificantDigits(mode: RoundingMode, digits: string, n: nat, d: nat, r: string,
                          allZeros: bool, first: int, last: int)
    requires AllDigits(digits) && IsRounded(mode, digits, d + n, r) && n > 0 && d < |digits|
    requires digits[d] != '0' && forall i :: 0 <= i < d ==> digits[i] == '0'
    requires Spans(r, allZeros, first, last)
    ensures !allZeros && last <= first + n
  {
    RoundedBound(mode, digits, d + n, d, r);
    hide DigitsValue, Pow10;
    ZeroValue(r);
    if first < d {
      OnlyOneDigit(r, first, last, d);
    }
  }

  /** The leading exponent of the printed text is read off the buffer. */
  lemma ShownExponent(buffer: string, text: string, first: int, last: int, afterDot: nat, pad: nat)
    requires Spans(buffer, false, first, last) && 1 <= afterDot <= |buffer|
    requires Whole(text) == buffer[ReadStart(false, first, afterDot)..afterDot]
    requires Fraction(text) == buffer[afterDot..ReadEnd(last, afterDot)] + Zeros(pad)
    ensures LeadingExponent(text) == afterDot - 1 - first
  {
    hide Whole, Fraction;
    var start := ReadStart(false, first, afterDot);
    var all := Whole(text) + Fraction(text);
    assert forall i :: 0 <= i < ReadEnd(last, afterDot) - start ==> all[i] == buffer[start + i];
    LeadingZeroCountIs(all, first - start);
  }

  /** Digits shown when padding to n decimals, or to n significant digits. */
  lemma PaddedLength(str: string, mode: RoundingMode, counting: CountingMode, n: nat, buffer: string,
                     allZeros: bool, first: int, last: int, negative: bool, pad: nat)
    requires IsPlain(str) && Buffer(str, mode, CutAt(str, counting, n), buffer, allZeros, first, last)
    requires allZeros ==> first == FirstDigit(Whole(str) + Fraction(str))
    requires var afterDot := 1 + |Whole(str)|;
      pad == Max(0, (if counting == DECIMAL_PLACES then afterDot else first) + n - ReadEnd(last, afterDot))
    ensures var afterDot := 1 + |Whole(str)|;
      && 0 <= ReadStart(allZeros, first, afterDot) <= afterDot <= ReadEnd(last, afterDot) <= |buffer|
      && var text := Shown(buffer, negative, allZeros, first, last, afterDot, pad);
      && (counting == DECIMAL_PLACES ==> |Fraction(text)| == n)
      && (counting == SIGNIFICANT_DIGITS && n > 0 ==> |Fraction(text)| == PaddedDecimals(str, n, text))
  {
    hide DigitsReal, Whole, Fraction, IsRounded, LeadingExponent, Zeros, Shown, RoundAt, IsTidy, EndsInZero;
    var all, afterDot := Whole(str) + Fraction(str), 1 + |Whole(str)|;
    ShownIsRounded(str, mode, CutAt(str, counting, n), buffer, allZeros, first, last, negative, pad);
    if counting == DECIMAL_PLACES {
      LastBeforeCut(str, mode, CutAt(str, counting, n), buffer, allZeros, first, last);
    } else if n > 0 {
      ZeroReal(all, |Fraction(str)|);
      if Magnitude(str) != 0.0 {
        SignificantDigits(mode, "0" + all, n, FirstDigit(all), buffer, allZeros, first, last);
        ShownExponent(buffer, Shown(buffer, negative, allZeros, first, last, afterDot, pad), first, last, afterDot, pad);
      } else {
        NothingSignificant(mode, all, CutAt(str, counting, n), buffer, allZeros, first, last);
      }
    }
  }

  lemma NothingSignificant(mode: RoundingMode, all: string, cut: nat, buffer: string,
                           allZeros: bool, first: int, last: int)
    requires AllDigits("0" + all) && IsRounded(mode, "0" + all, cut, buffer) && Spans(buffer, allZeros, first, last)
    requires forall i :: 0 <= i < |all| ==> all[i] == '0'
    ensures allZeros && FirstDigit(all) == 1
  {
    var digits := "0" + all;
    assert forall i :: 0 <= i < |digits| ==> digits[i] == '0';
    hide DigitsValue, Pow10;
    ZerosValue(digits[..Min(cut, |digits|)]);
    assert Up(mode, digits, cut) == 0;
    assert DigitsValue(buffer) == 0;
    ZeroValue(buffer);
  }

  /** The text printed from the rounded buffer is what was promised. */
  lemma FormatCorrect(str: string, mode: RoundingMode, n: nat, counting: CountingMode, padding: PaddingMode,
                      buffer: string, allZeros: bool, first: int, last: int, pad: nat)
    requires IsPlain(str) && Buffer(str, mode, CutAt(str, counting, n), buffer, allZeros, first, last)
    requires allZeros ==> first == FirstDigit(Whole(str) + Fraction(str))
    requires var afterDot := 1 + |Whole(str)|;
      pad == if padding == NO_PADDING then 0
             else Max(0, (if counting == DECIMAL_PLACES then afterDot else first) + n - ReadEnd(last, afterDot))
    ensures var afterDot := 1 + |Whole(str)|;
      && 0 <= ReadStart(allZeros, first, afterDot) <= afterDot <= ReadEnd(last, afterDot) <= |buffer|
      && Formats(str, mode, n, counting, padding,
                 Shown(buffer, Negative(str) && !allZeros, allZeros, first, last, afterDot, pad))
  {
    hide Magnitude, RoundAt, Text, IsRounded, Whole, Fraction, Negative, Shown, IsPlain, Buffer, IsTidy, EndsInZero;
    hide PaddedDecimals, Places, CutAt;
    var afterDot, negative := 1 + |Whole(str)|, Negative(str) && !allZeros;
    ShownIsRounded(str, mode, CutAt(str, counting, n), buffer, allZeros, first, last, negative, pad);
    CutIsPlaces(str, mode, counting, n);
    if padding == PAD_WITH_ZERO {
      PaddedLength(str, mode, counting, n, buffer, allZeros, first, last, negative, pad);
    }
  }

  /** What the copied digits look like. */
  lemma BufferShape(str: string)
    requires IsPlain(str)
    ensures var all := Whole(str) + Fraction(str);
      AllDigits(all) && AllDigits("0" + all) && ("0" + all)[0] == '0' && |"0" + all| == 1 + |Whole(str)| + |Fraction(str)|
  {
    hide Whole, Fraction;
  }

  lemma BufferIs(str: string, mode: RoundingMode, cut: nat, buffer: string, allZeros: bool, first: int, last: int)
    requires IsPlain(str) && AllDigits("0" + (Whole(str) + Fraction(str)))
    requires IsRounded(mode, "0" + (Whole(str) + Fraction(str)), cut, buffer) && Spans(buffer, allZeros, first, last)
    ensures Buffer(str, mode, cut, buffer, allZeros, first, last) && |buffer| == 1 + |Whole(str)| + |Fraction(str)|
  {
    hide DigitsValue, Pow10, Whole, Fraction;
  }

  /** decimalToPrecision for a precision that is not negative; None is the thrown error. */
  method DecimalToPrecision(str: string, mode: RoundingMode, n: nat, counting: CountingMode, padding: PaddingMode)
    returns (r: Option<string>)
    ensures r.Some? <==> IsDotted(str)
    ensures IsPlain(str) ==> r.Some? && Formats(str, mode, n, counting, padding, r.value)
  {
    hide Formats, Whole, Fraction, IsPlain, IsDotted, AllDigits, FirstDigit, Negative, Text, Zeros, IsRounded, Buffer;
    hide Spans;
    DottedIsPlain(str);
    var ok, chars, afterDot, firstDigit := CopyDigits(str);
    if !ok {
      return None;
    }
    if IsPlain(str) {
      BufferShape(str);
    }
    var isNegative := Negative(str);
    var precisionStart := if counting == DECIMAL_PLACES then afterDot else firstDigit;
    var precisionEnd := precisionStart + n;
    var digitsStart, digitsEnd, allZeros := RoundDigits(chars, mode, precisionStart + n, firstDigit);
    if counting == SIGNIFICANT_DIGITS {
      precisionStart := digitsStart;
      precisionEnd := precisionStart + n;
    }
    var signNeeded := isNegative && !allZeros;
    var readStart := if digitsStart >= afterDot || allZeros then afterDot - 1 else digitsStart;
    var readEnd := if digitsEnd < afterDot then afterDot else digitsEnd;
    var actualLength := readEnd - readStart;
    var desiredLength := if padding == NO_PADDING then actualLength else precisionEnd - readStart;
    var pad := Max(0, desiredLength - actualLength);
    var text := Emit(chars[..], signNeeded, readStart, afterDot, readEnd, pad);
    if IsPlain(str) {
      BufferIs(str, mode, CutAt(str, counting, n), chars[..], allZeros, digitsStart, digitsEnd);
      ReadRange(chars[..], allZeros, digitsStart, digitsEnd, afterDot);
      FormatCorrect(str, mode, n, counting, padding, chars[..], allZeros, digitsStart, digitsEnd, pad);
    }
    r := Some(text);
  }
}
