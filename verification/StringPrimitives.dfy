/** The string operations of JavaScript that number texts go through. */
module StringPrimitives {
  import opened Basics
  import opened Decimals

  // ----- searching and splitting -------------------------------------------

  function LowerChar(c: char): char {
    if 'A' <= c <= 'Z' then (c as int + 32) as char else c
  }

  function Lower(s: string): (r: string)
    ensures |r| == |s| && forall i :: 0 <= i < |s| ==> r[i] == LowerChar(s[i])
  {
    seq(|s|, i requires 0 <= i < |s| => LowerChar(s[i]))
  }

  /** Position of the first c in s, or -1. */
  function IndexOf(s: string, c: char): (k: int)
    ensures -1 <= k < |s|
    ensures k == -1 ==> forall j :: 0 <= j < |s| ==> s[j] != c
    ensures k >= 0 ==> s[k] == c && forall j :: 0 <= j < k ==> s[j] != c
  {
    if s == [] then -1
    else if s[0] == c then 0
    else
      var k := IndexOf(s[1..], c);
      if k == -1 then -1 else k + 1
  }

  lemma IndexIs(s: string, c: char, k: nat)
    requires k < |s| && s[k] == c && forall j :: 0 <= j < k ==> s[j] != c
    ensures IndexOf(s, c) == k
  {
  }

  lemma {:induction false} IndexOfConcat(s: string, c: char, t: string)
    requires c !in s
    ensures IndexOf(s + [c] + t, c) == |s|
  {
    var u := s + [c] + t;
    assert u[|s|] == c;
    assert forall j :: 0 <= j < |s| ==> u[j] == s[j];
  }

  /** Removes the first decimal point. */
  function WithoutDot(s: string): string {
    var k := IndexOf(s, '.');
    if k == -1 then s else s[..k] + s[k + 1..]
  }

  /** Position of the first occurrence of sep, or -1. */
  function FirstAt(s: string, sep: string): (k: int)
    requires sep != []
    ensures k == -1 || (0 <= k <= |s| - |sep| && s[k..k + |sep|] == sep)
  {
    if |s| < |sep| then -1
    else if s[..|sep|] == sep then 0
    else
      var k := FirstAt(s[1..], sep);
      assert k != -1 ==> s[k + 1..k + 1 + |sep|] == s[1..][k..k + |sep|];
      if k == -1 then -1 else k + 1
  }

  function Split(s: string, sep: string): (parts: seq<string>)
    requires sep != []
    ensures parts != []
    decreases |s|
  {
    var k := FirstAt(s, sep);
    if k == -1 then [s] else [s[..k]] + Split(s[k + |sep|..], sep)
  }

  lemma FirstAtLater(s: string, sep: string)
    requires sep != [] && s != [] && s[0] != sep[0]
    ensures FirstAt(s, sep) == if FirstAt(s[1..], sep) == -1 then -1 else FirstAt(s[1..], sep) + 1
  {
    assert |s| >= |sep| ==> s[..|sep|][0] == s[0];
  }

  lemma {:induction false} FirstAtConcat(a: string, sep: string, b: string)
    requires sep != [] && sep[0] !in a
    ensures FirstAt(a + sep + b, sep) == |a|
  {
    hide FirstAt;
    var s := a + sep + b;
    if a == [] {
      FirstAtFront(sep, b);
      assert s == sep + b;
    } else {
      FirstAtConcat(a[1..], sep, b);
      assert s[1..] == a[1..] + sep + b;
      FirstAtLater(s, sep);
    }
  }

  lemma FirstAtFront(sep: string, b: string)
    requires sep != []
    ensures FirstAt(sep + b, sep) == 0
  {
    assert (sep + b)[..|sep|] == sep;
  }

  lemma {:induction false} FirstAtNone(a: string, sep: string)
    requires sep != [] && sep[0] !in a
    ensures FirstAt(a, sep) == -1
  {
    if |a| >= |sep| {
      FirstAtNone(a[1..], sep);
      assert a[..|sep|][0] == a[0];
    }
  }

  /** The first part of a split ends where the separator first occurs. */
  lemma SplitHead(a: string, sep: string, b: string)
    requires sep != [] && sep[0] !in a
    ensures Split(a + sep + b, sep) == [a] + Split(b, sep)
  {
    FirstAtConcat(a, sep, b);
    var s := a + sep + b;
    assert s[..|a|] == a && s[|a| + |sep|..] == b;
  }

  lemma SplitWhole(a: string, sep: string)
    requires sep != [] && sep[0] !in a
    ensures Split(a, sep) == [a]
  {
    FirstAtNone(a, sep);
  }

  lemma SplitInTwo(a: string, sep: string, b: string)
    requires sep != [] && sep[0] !in a && sep[0] !in b
    ensures Split(a + sep + b, sep) == [a, b]
  {
    SplitHead(a, sep, b);
    SplitWhole(b, sep);
  }

  // ----- white space -------------------------------------------------------

  /** White space and line terminators, as trimming and number texts understand them. */
  predicate IsWhite(c: char) {
    var u := c as int;
    || 9 <= u <= 13 || u == 32 || u == 0xA0 || u == 0x1680 || 0x2000 <= u <= 0x200A
    || u == 0x2028 || u == 0x2029 || u == 0x202F || u == 0x205F || u == 0x3000 || u == 0xFEFF
  }

  /** WhiteSpace and LineTerminator of ECMAScript by their code points, the former with the space separators of Unicode. */
  const WHITE_SPACE := [0x9, 0xB, 0xC, 0x20, 0xA0, 0xFEFF]
  const LINE_TERMINATORS := [0xA, 0xD, 0x2028, 0x2029]
  const SPACE_SEPARATORS := [
    0x1680, 0x2000, 0x2001, 0x2002, 0x2003, 0x2004, 0x2005, 0x2006, 0x2007, 0x2008, 0x2009, 0x200A, 0x202F, 0x205F, 0x3000]

  lemma WhiteIs(c: char)
    ensures IsWhite(c) <==> c as int in WHITE_SPACE + LINE_TERMINATORS + SPACE_SEPARATORS
  {
    var u := c as int;
    assert u in SPACE_SEPARATORS <==> u == 0x1680 || 0x2000 <= u <= 0x200A || u == 0x202F || u == 0x205F || u == 0x3000;
    assert u in WHITE_SPACE + LINE_TERMINATORS + SPACE_SEPARATORS <==>
      u in WHITE_SPACE || u in LINE_TERMINATORS || u in SPACE_SEPARATORS;
  }

  predicate AllWhite(s: string) {
    forall i :: 0 <= i < |s| ==> IsWhite(s[i])
  }

  function TrimStart(s: string): (r: string)
    ensures |r| <= |s| && r == s[|s| - |r|..] && AllWhite(s[..|s| - |r|])
    ensures r != [] ==> !IsWhite(r[0])
  {
    if s != [] && IsWhite(s[0]) then TrimStart(s[1..]) else s
  }

  function TrimEnd(s: string): (r: string)
    ensures |r| <= |s| && r == s[..|r|] && AllWhite(s[|r|..])
    ensures r != [] ==> !IsWhite(r[|r| - 1])
  {
    if s != [] && IsWhite(s[|s| - 1]) then
      var r := TrimEnd(s[..|s| - 1]);
      assert s[|r|..] == s[..|s| - 1][|r|..] + [s[|s| - 1]];
      r
    else s
  }

  function Trim(s: string): string {
    TrimEnd(TrimStart(s))
  }

  lemma {:induction false} TrimStartOf(before: string, s: string)
    requires AllWhite(before) && (s == [] || !IsWhite(s[0]))
    ensures TrimStart(before + s) == s
  {
    hide IsWhite, TrimStart;
    if before == [] {
      assert before + s == s;
      TrimNothing(s);
    } else {
      TrimStartOf(before[1..], s);
      TailOfConcat(before, s);
      TrimWhite(before + s);
    }
  }

  lemma TrimNothing(s: string)
    requires s == [] || !IsWhite(s[0])
    ensures TrimStart(s) == s
  {
  }

  lemma TrimWhite(s: string)
    requires s != [] && IsWhite(s[0])
    ensures TrimStart(s) == TrimStart(s[1..])
  {
  }

  lemma {:induction false} TrimEndOf(s: string, after: string)
    requires AllWhite(after) && (s == [] || !IsWhite(s[|s| - 1]))
    ensures TrimEnd(s + after) == s
  {
    if after == [] {
      assert s + after == s;
    } else {
      TrimEndOf(s, after[..|after| - 1]);
      assert (s + after)[..|s + after| - 1] == s + after[..|after| - 1];
    }
  }

  lemma TrimOf(before: string, s: string, after: string)
    requires AllWhite(before) && AllWhite(after) && (s == [] || (!IsWhite(s[0]) && !IsWhite(s[|s| - 1])))
    ensures Trim(before + s + after) == s
  {
    if s == [] {
      TrimStartOf(before + after, []);
      assert before + s + after == before + after + [];
    } else {
      TrimStartOf(before, s + after);
      assert before + s + after == before + (s + after);
      TrimEndOf(s, after);
    }
  }

  lemma TrimParts(s: string) returns (before: string, after: string)
    ensures s == before + Trim(s) + after && AllWhite(before) && AllWhite(after)
  {
    hide TrimStart, TrimEnd, IsWhite, AllWhite;
    var t := TrimStart(s);
    var u := TrimEnd(t);
    before, after := s[..|s| - |t|], t[|u|..];
    CutAnywhere(s, |s| - |t|);
    CutAnywhere(t, |u|);
  }

  lemma CutAnywhere(s: string, k: nat)
    requires k <= |s|
    ensures s == s[..k] + s[k..]
  {
  }

  // ----- signs and digits of any radix -------------------------------------

  datatype Sign = Unsigned | Minus | Plus

  function SignText(s: Sign): string {
    match s
    case Unsigned => ""
    case Minus => "-"
    case Plus => "+"
  }

  function Signed(s: Sign, n: nat): int {
    if s == Minus then 0 - n else n
  }

  /** The sign in front of a text and its length. */
  function LeadingSign(t: string): (Sign, nat) {
    if t != [] && t[0] == '-' then (Minus, 1)
    else if t != [] && t[0] == '+' then (Plus, 1)
    else (Unsigned, 0)
  }

  lemma LeadingSignOf(s: Sign, t: string)
    requires t == [] ==> s == Unsigned
    requires t != [] ==> t[0] !in "+-"
    ensures LeadingSign(SignText(s) + t) == (s, |SignText(s)|)
    ensures (SignText(s) + t)[|SignText(s)|..] == t
  {
    assert s == Unsigned ==> SignText(s) + t == t;
  }

  lemma LeadingSignIs(t: string)
    ensures var (s, n) := LeadingSign(t); n <= |t| && n == |SignText(s)| && t == SignText(s) + t[n..]
  {
  }

  /** The value of a digit or letter in a large enough radix; 36 for anything else. */
  function CharDigit(c: char): nat {
    if IsDigit(c) then DigitOf(c)
    else if 'a' <= c <= 'z' then c as int - 'a' as int + 10
    else if 'A' <= c <= 'Z' then c as int - 'A' as int + 10
    else 36
  }

  predicate IsDigitIn(radix: nat, c: char) {
    CharDigit(c) < radix
  }

  predicate AllDigitsIn(radix: nat, s: string) {
    forall i :: 0 <= i < |s| ==> IsDigitIn(radix, s[i])
  }

  function RadixValue(radix: nat, s: string): nat {
    if s == [] then 0 else radix * RadixValue(radix, s[..|s| - 1]) + CharDigit(s[|s| - 1])
  }

  lemma {:induction false} DecimalValue(s: string)
    ensures AllDigitsIn(10, s) <==> AllDigits(s)
    ensures AllDigits(s) ==> RadixValue(10, s) == DigitsValue(s)
  {
    if s != [] {
      DecimalValue(s[..|s| - 1]);
      assert s == s[..|s| - 1] + [s[|s| - 1]];
    }
  }

  /** The longest prefix of digits. */
  function DigitPrefix(radix: nat, s: string): (r: string)
    ensures |r| <= |s| && r == s[..|r|] && AllDigitsIn(radix, r)
    ensures |r| < |s| ==> !IsDigitIn(radix, s[|r|])
  {
    if s == [] || !IsDigitIn(radix, s[0]) then [] else [s[0]] + DigitPrefix(radix, s[1..])
  }

  lemma {:induction false} DigitPrefixOf(radix: nat, s: string, rest: string)
    requires AllDigitsIn(radix, s) && (rest == [] || !IsDigitIn(radix, rest[0]))
    ensures DigitPrefix(radix, s + rest) == s
  {
    hide IsDigitIn, DigitPrefix;
    if s == [] {
      assert s + rest == rest;
      NoDigits(radix, rest);
    } else {
      DigitPrefixOf(radix, s[1..], rest);
      TailOfConcat(s, rest);
      OneMoreDigit(radix, s + rest);
      assert s == [s[0]] + s[1..];
    }
  }

  lemma TailOfConcat(s: string, t: string)
    requires s != []
    ensures (s + t)[0] == s[0] && (s + t)[1..] == s[1..] + t
  {
  }

  lemma NoDigits(radix: nat, s: string)
    requires s == [] || !IsDigitIn(radix, s[0])
    ensures DigitPrefix(radix, s) == []
  {
  }

  lemma OneMoreDigit(radix: nat, s: string)
    requires s != [] && IsDigitIn(radix, s[0])
    ensures DigitPrefix(radix, s) == [s[0]] + DigitPrefix(radix, s[1..])
  {
  }

  // ----- parseInt ----------------------------------------------------------

  predicate HasHexPrefix(s: string) {
    |s| >= 2 && s[0] == '0' && s[1] in "xX"
  }

  /** A hexadecimal prefix, digits, and then anything; None if there are no digits. */
  function ReadDigits(u: string): Option<nat> {
    var digits := if HasHexPrefix(u) then DigitPrefix(16, u[2..]) else DigitPrefix(10, u);
    if digits == [] then None else Some(RadixValue(if HasHexPrefix(u) then 16 else 10, digits))
  }

  /** parseInt: leading white space, a sign and digits; None is NaN. */
  function ParseInt(s: string): Option<int> {
    var t := TrimStart(s);
    var (sign, n) := LeadingSign(t);
    var digits := ReadDigits(t[n..]);
    if digits == None then None else Some(Signed(sign, digits.value))
  }

  lemma ParseIntOf(space: string, sign: Sign, u: string)
    requires AllWhite(space) && u != [] && !IsWhite(u[0]) && u[0] !in "+-"
    ensures ParseInt(space + (SignText(sign) + u)) ==
      if ReadDigits(u) == None then None else Some(Signed(sign, ReadDigits(u).value))
  {
    var t := SignText(sign) + u;
    assert sign == Unsigned ==> t == u;
    hide ReadDigits;
    TrimStartOf(space, t);
    LeadingSignOf(sign, u);
  }

  // ----- BigInt ------------------------------------------------------------

  /** The radix a prefix announces; 0 if there is none. */
  function PrefixRadix(mark: char): nat {
    if mark in "xX" then 16 else if mark in "oO" then 8 else if mark in "bB" then 2 else 0
  }

  predicate HasPrefix(s: string) {
    |s| >= 2 && s[0] == '0' && PrefixRadix(s[1]) != 0
  }

  /** BigInt of a text: white space around a signed decimal integer, an unsigned prefixed one, or nothing; None is a
      SyntaxError. */
  function BigIntOf(s: string): Option<int> {
    var t := Trim(s);
    if HasPrefix(t) then
      var digits := t[2..];
      if digits != [] && AllDigitsIn(PrefixRadix(t[1]), digits) then Some(RadixValue(PrefixRadix(t[1]), digits)) else None
    else
      var (sign, n) := LeadingSign(t);
      var digits := t[n..];
      if AllDigits(digits) && (digits == [] ==> sign == Unsigned) then Some(Signed(sign, DigitsValue(digits))) else None
  }

  /** What a BigInt text holds between the white space. */
  datatype Core = Decimal(sign: Sign, digits: string) | Prefixed(mark: char, digits: string)

  predicate IsCore(c: Core) {
    match c
    case Decimal(sign, digits) => AllDigits(digits) && (digits == [] ==> sign == Unsigned)
    case Prefixed(mark, digits) => PrefixRadix(mark) != 0 && digits != [] && AllDigitsIn(PrefixRadix(mark), digits)
  }

  function CoreText(c: Core): string {
    match c
    case Decimal(sign, digits) => SignText(sign) + digits
    case Prefixed(mark, digits) => "0" + [mark] + digits
  }

  function CoreValue(c: Core): int
    requires IsCore(c)
  {
    match c
    case Decimal(sign, digits) => Signed(sign, DigitsValue(digits))
    case Prefixed(mark, digits) => RadixValue(PrefixRadix(mark), digits)
  }

  lemma CoreEnds(c: Core)
    requires IsCore(c)
    ensures var t := CoreText(c); t == [] || (!IsWhite(t[0]) && !IsWhite(t[|t| - 1]))
    ensures '.' !in CoreText(c)
  {
  }

  lemma DecimalHasNoPrefix(sign: Sign, digits: string)
    requires AllDigits(digits)
    ensures !HasPrefix(SignText(sign) + digits)
  {
    assert sign == Unsigned ==> SignText(sign) + digits == digits;
  }

  lemma BigIntOfCore(before: string, c: Core, after: string)
    requires AllWhite(before) && AllWhite(after) && IsCore(c)
    ensures BigIntOf(before + CoreText(c) + after) == Some(CoreValue(c))
  {
    hide Trim, DigitsValue, RadixValue, AllDigitsIn, AllWhite, IsWhite, SignText;
    CoreEnds(c);
    TrimOf(before, CoreText(c), after);
    match c
    case Decimal(sign, digits) =>
      DecimalHasNoPrefix(sign, digits);
      SignedDecimal(sign, digits);
    case Prefixed(mark, digits) =>
      assert CoreText(c)[2..] == digits;
  }

  lemma SignedDecimal(sign: Sign, digits: string)
    requires AllDigits(digits) && (digits == [] ==> sign == Unsigned)
    ensures LeadingSign(SignText(sign) + digits) == (sign, |SignText(sign)|)
    ensures (SignText(sign) + digits)[|SignText(sign)|..] == digits
  {
    LeadingSignOf(sign, digits);
  }

  /** Every text BigInt accepts is a core between white space. */
  lemma BigIntShape(s: string) returns (before: string, c: Core, after: string)
    requires BigIntOf(s).Some?
    ensures AllWhite(before) && AllWhite(after) && IsCore(c) && s == before + CoreText(c) + after
  {
    before, after := TrimParts(s);
    var t := Trim(s);
    hide Trim, DigitsValue, RadixValue;
    if HasPrefix(t) {
      c := Prefixed(t[1], t[2..]);
      assert t == "0" + [t[1]] + t[2..];
    } else {
      var (sign, n) := LeadingSign(t);
      c := Decimal(sign, t[n..]);
      LeadingSignIs(t);
    }
  }

  /** BigInt's toString. */
  function IntegerText(n: int): (s: string)
    ensures s != []
  {
    if n < 0 then "-" + Numeral(-n) else Numeral(n)
  }

  lemma IntegerTextParses(n: int)
    ensures BigIntOf(IntegerText(n)) == Some(n)
  {
    NumeralValue(Abs(n));
    hide Numeral, DigitsValue, BigIntOf;
    var c := Decimal(if n < 0 then Minus else Unsigned, Numeral(Abs(n)));
    BigIntOfCore("", c, "");
    assert "" + CoreText(c) + "" == IntegerText(n);
  }
}
