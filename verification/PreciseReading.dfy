/** The string constructor of Precise: exactly which texts it accepts, and what it reads. */
module PreciseReading {
  import opened Basics
  import opened StringPrimitives
  import opened PreciseArithmetic

  /** Malformed: the constructor throws. Unscaled: it succeeds, but the number of decimals is NaN. */
  datatype Reading = Malformed | Unscaled(integer: int) | Number(dec: Dec)

  /** The constructor behind the exponent; None stands for NaN. */
  function ParseMantissa(number: string, modifier: Option<int>): Reading {
    var decimalIndex := IndexOf(number, '.');
    var decimals := if decimalIndex > -1 then |number| - decimalIndex - 1 else 0;
    var integer := BigIntOf(WithoutDot(number));
    if integer.None? then Malformed
    else if modifier.None? then Unscaled(integer.value)
    else Number(Dec(integer.value, decimals - modifier.value))
  }

  /** The constructor of Precise on a text. */
  function Parse(text: string): Reading {
    var number := Lower(text);
    if IndexOf(number, 'e') > -1 then
      var parts := Split(number, "e");
      ParseMantissa(parts[0], if |parts| > 1 then ParseInt(parts[1]) else None)
    else
      ParseMantissa(number, Some(0))
  }

  // ----- the shapes of an accepted text, in lower case ---------------------

  /** White space, an integer and white space, with a point anywhere. */
  datatype Mantissa = Mantissa(before: string, core: Core, after: string, point: Option<nat>)

  /** The mark, white space, a sign, digits, and anything that does not continue them. */
  datatype Tail = NoTail | Tail(space: string, sign: Sign, hex: bool, digits: string, rest: string)

  function Bare(m: Mantissa): string {
    m.before + CoreText(m.core) + m.after
  }

  ghost predicate IsMantissa(m: Mantissa) {
    && AllWhite(m.before) && IsCore(m.core) && AllWhite(m.after)
    && (m.point.Some? ==> m.point.value <= |Bare(m)|)
    && 'e' !in CoreText(m.core)
  }

  function MantissaText(m: Mantissa): string {
    if m.point.None? || m.point.value > |Bare(m)| then Bare(m)
    else Bare(m)[..m.point.value] + "." + Bare(m)[m.point.value..]
  }

  /** Everything behind the point counts as a decimal. */
  function MantissaDecimals(m: Mantissa): int {
    if m.point.None? then 0 else |Bare(m)| - m.point.value
  }

  function TailRadix(x: Tail): nat
    requires x.Tail?
  {
    if x.hex then 16 else 10
  }

  /** Where reading digits stops: at the end, at anything that is no digit, and at a second mark. */
  predicate Stops(radix: nat, rest: string) {
    rest == [] || !IsDigitIn(radix, rest[0]) || rest[0] == 'e'
  }

  ghost predicate IsTail(x: Tail) {
    x.Tail? ==>
      && AllWhite(x.space) && x.digits != [] && AllDigitsIn(TailRadix(x), x.digits) && 'e' !in x.digits
      && Stops(TailRadix(x), x.rest)
      && (x.digits == "0" && !x.hex ==> x.rest == [] || x.rest[0] !in "xX")
  }

  /** The part of the tail that is read. */
  function TailNumber(x: Tail): string
    requires x.Tail?
  {
    SignText(x.sign) + ((if x.hex then "0x" else "") + x.digits)
  }

  function TailText(x: Tail): string {
    if x.NoTail? then "" else "e" + (x.space + TailNumber(x) + x.rest)
  }

  function TailValue(x: Tail): int {
    if x.NoTail? then 0 else Signed(x.sign, RadixValue(TailRadix(x), x.digits))
  }

  ghost predicate Accepted(text: string, m: Mantissa, x: Tail) {
    IsMantissa(m) && IsTail(x) && Lower(text) == MantissaText(m) + TailText(x)
  }

  // ----- what an accepted text is read as ----------------------------------

  lemma CoreNoLetterE(m: Mantissa)
    requires IsMantissa(m)
    ensures 'e' !in Bare(m) && '.' !in Bare(m) && 'e' !in MantissaText(m)
  {
    CoreEnds(m.core);
    hide CoreText, IsCore;
  }

  lemma PointFound(m: Mantissa)
    requires IsMantissa(m)
    ensures IndexOf(MantissaText(m), '.') == if m.point.None? then -1 else m.point.value
    ensures WithoutDot(MantissaText(m)) == Bare(m)
    ensures |MantissaText(m)| == |Bare(m)| + if m.point.None? then 0 else 1
  {
    CoreNoLetterE(m);
    hide Bare, CoreText, IsCore;
    if m.point.Some? {
      var k, t := m.point.value, Bare(m);
      IndexOfConcat(t[..k], '.', t[k..]);
      assert MantissaText(m) == t[..k] + ['.'] + t[k..];
      var n := MantissaText(m);
      assert n[..k] == t[..k] && n[k + 1..] == t[k..] && t == t[..k] + t[k..];
    }
  }

  lemma MantissaReads(m: Mantissa, modifier: Option<int>)
    requires IsMantissa(m)
    ensures ParseMantissa(MantissaText(m), modifier) ==
      if modifier.None? then Unscaled(CoreValue(m.core))
      else Number(Dec(CoreValue(m.core), MantissaDecimals(m) - modifier.value))
  {
    hide MantissaText, BigIntOf, IndexOf, WithoutDot, CoreText, IsCore, CoreValue, AllWhite;
    PointFound(m);
    BigIntOfCore(m.before, m.core, m.after);
  }

  /** The digits end where the text is cut at the next mark, or where they stop. */
  lemma UpToMark(x: Tail, t: string, more: string)
    requires IsTail(x) && x.Tail? && 'e' !in t && x.space + TailNumber(x) + x.rest == t + more
    requires more == [] || more[0] == 'e'
    ensures |x.space + TailNumber(x)| <= |t|
    ensures var rest := t[|x.space + TailNumber(x)|..];
      && t == x.space + TailNumber(x) + rest && (rest == [] || (x.rest != [] && rest[0] == x.rest[0]))
  {
    NoMarkRead(x);
    hide TailNumber;
    CutBehind(x.space + TailNumber(x), x.rest, t, more);
  }

  /** Two ways to cut a text: behind a part without mark, and at a mark. */
  lemma CutBehind(read: string, rest: string, t: string, more: string)
    requires read + rest == t + more && 'e' !in read && (more == [] || more[0] == 'e')
    ensures |read| <= |t| && t == read + t[|read|..]
    ensures t[|read|..] == [] || (rest != [] && t[|read|..][0] == rest[0])
  {
    var all := t + more;
    assert more != [] ==> all[|t|] == 'e';
    assert forall i :: 0 <= i < |read| ==> all[i] == read[i];
    assert t[..|read|] == all[..|read|] == read;
    assert |read| < |t| ==> t[|read|] == all[|read|] == rest[0];
  }

  lemma NoMarkRead(x: Tail)
    requires IsTail(x) && x.Tail?
    ensures 'e' !in x.space + TailNumber(x)
  {
  }

  /** The digits of a tail, with the rest of its text up to the next mark. */
  lemma DigitsRead(hex: bool, digits: string, rest: string)
    requires digits != [] && AllDigitsIn(if hex then 16 else 10, digits)
    requires rest == [] || !IsDigitIn(if hex then 16 else 10, rest[0])
    requires digits == "0" && !hex ==> rest == [] || rest[0] !in "xX"
    ensures var u := (if hex then "0x" else "") + digits + rest;
      && !IsWhite(u[0]) && u[0] !in "+-"
      && ReadDigits(u) == Some(RadixValue(if hex then 16 else 10, digits))
  {
    var u := (if hex then "0x" else "") + digits + rest;
    DigitIsPlain(if hex then 16 else 10, digits[0]);
    DigitPrefixOf(if hex then 16 else 10, digits, rest);
    hide DigitPrefix, RadixValue, IsDigitIn, IsWhite;
    if hex {
      assert u[2..] == digits + rest;
      assert u[0] == '0' && u[1] == 'x';
      PlainZero();
    } else {
      assert u == digits + rest && u[0] == digits[0];
      NoHexPrefix(digits, rest);
    }
  }

  lemma ParseIntReads(x: Tail, rest: string)
    requires x.Tail? && AllWhite(x.space) && x.digits != [] && AllDigitsIn(TailRadix(x), x.digits)
    requires rest == [] || !IsDigitIn(TailRadix(x), rest[0])
    requires x.digits == "0" && !x.hex ==> rest == [] || rest[0] !in "xX"
    ensures ParseInt(x.space + TailNumber(x) + rest) == Some(TailValue(x))
  {
    hide ParseInt, ReadDigits, AllDigitsIn, AllWhite, RadixValue;
    DigitsRead(x.hex, x.digits, rest);
    var u := (if x.hex then "0x" else "") + x.digits + rest;
    ParseIntOf(x.space, x.sign, u);
    assert x.space + TailNumber(x) + rest == x.space + (SignText(x.sign) + u);
  }

  lemma PlainZero()
    ensures !IsWhite('0')
  {
  }

  lemma DigitIsPlain(radix: nat, c: char)
    requires IsDigitIn(radix, c) && radix <= 16
    ensures !IsWhite(c) && c !in "+-"
  {
  }

  lemma NoHexPrefix(digits: string, rest: string)
    requires digits != [] && AllDigitsIn(10, digits)
    requires digits == "0" ==> rest == [] || rest[0] !in "xX"
    ensures !HasHexPrefix(digits + rest)
  {
    var u := digits + rest;
    if |digits| > 1 {
      assert u[1] == digits[1] && IsDigitIn(10, digits[1]);
    } else {
      assert |u| > 1 ==> u[1] == rest[0];
      assert u[0] == '0' ==> digits == "0";
    }
  }

  lemma SplitStart(s: string) returns (more: string)
    ensures s == Split(s, "e")[0] + more && 'e' !in Split(s, "e")[0]
    ensures more == [] || more[0] == 'e'
  {
    hide Split, IndexOf;
    var k := IndexOf(s, 'e');
    if k == -1 {
      SplitWhole(s, "e");
      more := [];
      assert s + [] == s;
    } else {
      SplitHead(s[..k], "e", s[k + 1..]);
      CutAnywhere(s, k);
      assert s == s[..k] + "e" + s[k + 1..];
      more := s[k..];
    }
  }

  lemma TailReads(x: Tail)
    requires IsTail(x) && x.Tail?
    ensures ParseInt(Split(x.space + TailNumber(x) + x.rest, "e")[0]) == Some(TailValue(x))
  {
    var s := x.space + TailNumber(x) + x.rest;
    var more := SplitStart(s);
    var t := Split(s, "e")[0];
    UpToMark(x, t, more);
    var rest := t[|x.space + TailNumber(x)|..];
    assert rest != [] ==> rest[0] in t;
    hide Split, ParseInt, TailNumber, AllDigitsIn, AllWhite;
    ParseIntReads(x, rest);
  }

  lemma ReadsBehindMark(text: string, m: string, s: string)
    requires Lower(text) == m + "e" + s && 'e' !in m
    ensures Parse(text) == ParseMantissa(m, ParseInt(Split(s, "e")[0]))
  {
    hide ParseMantissa, ParseInt, Split, Lower;
    SplitHead(m, "e", s);
    IndexOfConcat(m, 'e', s);
    assert m + ['e'] + s == m + "e" + s;
  }

  lemma ReadsWithoutMark(text: string, m: string)
    requires Lower(text) == m && 'e' !in m
    ensures Parse(text) == ParseMantissa(m, Some(0))
  {
    hide ParseMantissa, Lower;
  }

  lemma AcceptedParts(text: string, m: Mantissa, x: Tail)
    requires Accepted(text, m, x)
    ensures IsMantissa(m) && IsTail(x)
    ensures x.NoTail? ==> Lower(text) == MantissaText(m) && TailValue(x) == 0
    ensures x.Tail? ==> Lower(text) == MantissaText(m) + "e" + (x.space + TailNumber(x) + x.rest)
  {
    hide IsMantissa, IsTail, MantissaText, TailNumber, Lower;
    assert MantissaText(m) + "" == MantissaText(m);
    assert x.Tail? ==> TailText(x) == "e" + (x.space + TailNumber(x) + x.rest);
  }

  /** Every accepted text is read as its integer, with as many decimals as characters follow the point. */
  lemma ParseReads(text: string, m: Mantissa, x: Tail)
    requires Accepted(text, m, x)
    ensures Parse(text) == Number(Dec(CoreValue(m.core), MantissaDecimals(m) - TailValue(x)))
  {
    hide *;
    AcceptedParts(text, m, x);
    CoreNoLetterE(m);
    MantissaReads(m, Some(TailValue(x)));
    if x.NoTail? {
      ReadsWithoutMark(text, MantissaText(m));
    } else {
      TailReads(x);
      ReadsBehindMark(text, MantissaText(m), x.space + TailNumber(x) + x.rest);
    }
  }

  // ----- nothing else is accepted ------------------------------------------

  lemma MantissaShape(number: string) returns (m: Mantissa)
    requires BigIntOf(WithoutDot(number)).Some? && 'e' !in number
    ensures IsMantissa(m) && MantissaText(m) == number
  {
    hide BigIntOf, CoreText, IsCore, AllWhite;
    var k := IndexOf(number, '.');
    var bare := WithoutDot(number);
    var before, c, after := BigIntShape(bare);
    m := Mantissa(before, c, after, if k == -1 then None else Some(k));
    InnerHasNo('e', before, CoreText(c), after, number);
    if k != -1 {
      assert number == number[..k] + "." + number[k + 1..];
      assert bare[..k] == number[..k] && bare[k..] == number[k + 1..];
    }
  }

  lemma InnerHasNo(x: char, a: string, b: string, c: string, number: string)
    requires a + b + c == WithoutDot(number) && x !in number
    ensures x !in b
  {
    assert forall y :: y in WithoutDot(number) ==> y in number;
    forall i | 0 <= i < |b| ensures b[i] != x {
      assert b[i] == (a + b + c)[|a| + i];
    }
  }

  /** White space and a sign in front of what parseInt reads as digits. */
  lemma NumberParts(t: string) returns (space: string, sign: Sign, v: string)
    requires ParseInt(t).Some?
    ensures AllWhite(space) && t == space + (SignText(sign) + v) && ReadDigits(v).Some?
  {
    hide ReadDigits, TrimStart, IsWhite, AllWhite;
    var u := TrimStart(t);
    CutAnywhere(t, |t| - |u|);
    var (s, n) := LeadingSign(u);
    LeadingSignIs(u);
    space, sign, v := t[..|t| - |u|], s, u[n..];
  }

  lemma TailShape(s: string) returns (x: Tail)
    requires ParseInt(Split(s, "e")[0]).Some? && 'X' !in s
    ensures x.Tail? && IsTail(x) && x.space + TailNumber(x) + x.rest == s
  {
    hide Split, ParseInt, ReadDigits, AllWhite, IsTail, TailNumber, SignText;
    var more := SplitStart(s);
    var t := Split(s, "e")[0];
    var space, sign, v := NumberParts(t);
    PartHasNo('X', space + SignText(sign), v, more, s);
    PartHasNo('e', space + SignText(sign), v, [], t);
    x := TailOf(space, sign, v, more);
    assert x.space + TailNumber(x) + x.rest == space + (SignText(sign) + v + more);
    assert s == space + (SignText(sign) + v) + more;
  }

  lemma PartHasNo(c: char, a: string, b: string, d: string, s: string)
    requires c !in s && |s| == |a + b + d| && a + b + d == s
    ensures c !in b
  {
    forall i | 0 <= i < |b| ensures b[i] != c {
      assert b[i] == s[|a| + i];
    }
  }

  lemma TailOf(space: string, sign: Sign, v: string, more: string) returns (x: Tail)
    requires AllWhite(space) && 'e' !in v && 'X' !in v && (more == [] || more[0] == 'e')
    requires ReadDigits(v).Some?
    ensures x.Tail? && IsTail(x) && x.space == space
    ensures TailNumber(x) + x.rest == SignText(sign) + v + more
  {
    hide IsTail, TailNumber, AllWhite, SignText, HasHexPrefix, DigitsOf, RestOf, ReadDigits, Stops, AllDigitsIn;
    var h := if HasHexPrefix(v) then "0x" else "";
    ReadParts(v);
    PartHasNo('e', h, DigitsOf(v), RestOf(v), v);
    RestStops(v, more);
    x := Tail(space, sign, HasHexPrefix(v), DigitsOf(v), RestOf(v) + more);
    TailIs(x);
    Regroup(SignText(sign), h, DigitsOf(v), RestOf(v), more);
  }

  lemma Regroup(a: string, b: string, c: string, d: string, e: string)
    ensures a + (b + c) + (d + e) == a + (b + c + d) + e
  {
  }

  lemma TailIs(x: Tail)
    requires x.Tail? && AllWhite(x.space) && x.digits != [] && 'e' !in x.digits
    requires AllDigitsIn(TailRadix(x), x.digits) && Stops(TailRadix(x), x.rest)
    requires x.digits == "0" && !x.hex ==> x.rest == [] || x.rest[0] !in "xX"
    ensures IsTail(x) && TailNumber(x) == SignText(x.sign) + ((if x.hex then "0x" else "") + x.digits)
  {
  }

  function DigitsOf(v: string): string {
    if HasHexPrefix(v) then DigitPrefix(16, v[2..]) else DigitPrefix(10, v)
  }

  function RestOf(v: string): string {
    (if HasHexPrefix(v) then v[2..] else v)[|DigitsOf(v)|..]
  }

  lemma ReadParts(v: string)
    requires ReadDigits(v).Some? && 'X' !in v
    ensures DigitsOf(v) != [] && v == (if HasHexPrefix(v) then "0x" else "") + DigitsOf(v) + RestOf(v)
    ensures AllDigitsIn(if HasHexPrefix(v) then 16 else 10, DigitsOf(v))
  {
    hide RadixValue, IsDigitIn, DigitPrefix;
    if HasHexPrefix(v) {
      CutAnywhere(v[2..], |DigitsOf(v)|);
      assert v == "0x" + v[2..];
      assert v == "0x" + (DigitsOf(v) + RestOf(v));
    } else {
      CutAnywhere(v, |DigitsOf(v)|);
      assert v == "" + DigitsOf(v) + RestOf(v);
    }
  }

  lemma RestStops(v: string, more: string)
    requires ReadDigits(v).Some? && (more == [] || more[0] == 'e')
    ensures Stops(if HasHexPrefix(v) then 16 else 10, RestOf(v) + more)
    ensures DigitsOf(v) == "0" && !HasHexPrefix(v) ==> RestOf(v) + more == [] || (RestOf(v) + more)[0] !in "xX"
  {
    hide RadixValue, IsDigitIn;
    var rest := RestOf(v);
    assert rest != [] ==> (rest + more)[0] == rest[0];
    assert DigitsOf(v) == "0" && !HasHexPrefix(v) && rest != [] ==> v[0] == '0' && v[1] == rest[0];
  }

  lemma LowerHasNoCapitals(text: string)
    ensures 'X' !in Lower(text)
  {
  }

  lemma CutAtMark(number: string) returns (k: nat)
    requires IndexOf(number, 'e') > -1
    ensures k < |number| && 'e' !in number[..k] && number == number[..k] + "e" + number[k + 1..]
  {
    k := IndexOf(number, 'e');
  }

  /** The shape of a text that is read as a number. */
  lemma AcceptedShape(text: string) returns (m: Mantissa, x: Tail)
    requires Parse(text).Number?
    ensures Accepted(text, m, x)
  {
    hide Parse, ParseMantissa, ParseInt, Split, Lower, IsMantissa, IsTail, MantissaText, TailNumber, IndexOf;
    var number := Lower(text);
    if IndexOf(number, 'e') > -1 {
      var k := CutAtMark(number);
      ReadsBehindMark(text, number[..k], number[k + 1..]);
      ReadMantissa(number[..k], ParseInt(Split(number[k + 1..], "e")[0]));
      LowerHasNoCapitals(text);
      m := MantissaShape(number[..k]);
      x := TailShape(number[k + 1..]);
      assert number == MantissaText(m) + ("e" + number[k + 1..]);
    } else {
      ReadsWithoutMark(text, number);
      ReadMantissa(number, Some(0));
      m := MantissaShape(number);
      x := NoTail;
      NoTailIsTail();
      assert MantissaText(m) + "" == number;
    }
  }

  lemma NoTailIsTail()
    ensures IsTail(NoTail)
  {
  }

  lemma ReadMantissa(number: string, modifier: Option<int>)
    ensures ParseMantissa(number, modifier).Malformed? <==> BigIntOf(WithoutDot(number)).None?
    ensures ParseMantissa(number, modifier).Number? <==> BigIntOf(WithoutDot(number)).Some? && modifier.Some?
  {
    hide BigIntOf, WithoutDot, IndexOf;
  }

  /** Exactly the texts of the given shapes are read as numbers. */
  lemma ParseNumbers(text: string)
    ensures Parse(text).Number? <==> exists m, x :: Accepted(text, m, x)
  {
    hide Parse, Accepted;
    if Parse(text).Number? {
      var m, x := AcceptedShape(text);
    }
    forall m, x | Accepted(text, m, x) ensures Parse(text).Number? {
      ParseReads(text, m, x);
    }
  }

  /** A mantissa, and behind it nothing or a mark. */
  ghost predicate Begins(text: string, m: Mantissa, rest: string) {
    IsMantissa(m) && Lower(text) == MantissaText(m) + rest && (rest == [] || rest[0] == 'e')
  }

  /** The constructor throws exactly on the texts that do not begin with a mantissa. */
  lemma ParseThrows(text: string)
    ensures Parse(text).Malformed? <==> !exists m, rest :: Begins(text, m, rest)
  {
    hide Parse, Begins;
    if !Parse(text).Malformed? {
      var m, rest := BegunShape(text);
    }
    forall m, rest | Begins(text, m, rest) ensures !Parse(text).Malformed? {
      BegunIsRead(text, m, rest);
    }
  }

  lemma BegunShape(text: string) returns (m: Mantissa, rest: string)
    requires !Parse(text).Malformed?
    ensures Begins(text, m, rest)
  {
    hide Parse, ParseMantissa, ParseInt, Split, Lower, IsMantissa, MantissaText, IndexOf;
    var number := Lower(text);
    if IndexOf(number, 'e') > -1 {
      var k := CutAtMark(number);
      ReadsBehindMark(text, number[..k], number[k + 1..]);
      ReadMantissa(number[..k], ParseInt(Split(number[k + 1..], "e")[0]));
      m := MantissaShape(number[..k]);
      rest := "e" + number[k + 1..];
      assert number == MantissaText(m) + rest;
    } else {
      ReadsWithoutMark(text, number);
      ReadMantissa(number, Some(0));
      m := MantissaShape(number);
      rest := "";
      assert MantissaText(m) + "" == number;
    }
  }

  lemma BegunParts(text: string, m: Mantissa, rest: string)
    requires Begins(text, m, rest)
    ensures IsMantissa(m)
    ensures rest == [] ==> Lower(text) == MantissaText(m)
    ensures rest != [] ==> Lower(text) == MantissaText(m) + "e" + rest[1..]
  {
    hide IsMantissa, MantissaText, Lower;
    assert rest == [] ==> MantissaText(m) + rest == MantissaText(m);
    assert rest != [] ==> MantissaText(m) + rest == MantissaText(m) + "e" + rest[1..];
  }

  lemma BegunIsRead(text: string, m: Mantissa, rest: string)
    requires Begins(text, m, rest)
    ensures !Parse(text).Malformed?
  {
    hide *;
    BegunParts(text, m, rest);
    CoreNoLetterE(m);
    if rest == [] {
      ReadsWithoutMark(text, MantissaText(m));
      MantissaReads(m, Some(0));
    } else {
      ReadsBehindMark(text, MantissaText(m), rest[1..]);
      MantissaReads(m, ParseInt(Split(rest[1..], "e")[0]));
    }
  }
}
