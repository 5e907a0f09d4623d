/** Summing fees per currency and rate. */
module Fees {
  import opened Basics
  import opened Decimals
  import opened StringPrimitives
  import opened PreciseArithmetic
  import opened PreciseReading
  import opened PreciseText

  /** A property as given: undefined or null, a text, or a number with the text it prints. */
  datatype Property = Missing | Text(text: string) | Numeral(text: string)

  datatype GivenFee = GivenFee(currency: Property, rate: Property, cost: Property)

  /** A fee as the reduction reads it; None is undefined. */
  datatype Fee = Fee(currency: Option<string>, rate: Option<string>, cost: Option<string>)

  /** safeString and safeValue: an empty text counts as missing. */
  function Safe(p: Property): Option<string> {
    if p.Missing? || p.text == "" then None else Some(p.text)
  }

  function Read(fee: GivenFee): Fee {
    Fee(Safe(fee.currency), Safe(fee.rate), Safe(fee.cost))
  }

  function ReadAll(fees: seq<GivenFee>): (r: seq<Fee>)
    ensures |r| == |fees| && forall i :: 0 <= i < |fees| ==> r[i] == Read(fees[i])
  {
    seq(|fees|, i requires 0 <= i < |fees| => Read(fees[i]))
  }

  /** The constructor of Precise takes no number: it has no toLowerCase. */
  predicate HasNumeralCost(fee: GivenFee) {
    Safe(fee.currency).Some? && fee.cost.Numeral?
  }

  /** A line of the result. */
  datatype Entry = Entry(currency: string, rate: Option<string>, cost: Option<string>)

  /** The nested object of the reduction: currency, then rate key. */
  type Table = map<string, map<string, Entry>>

  function RateKey(rate: Option<string>): string {
    if rate == None then "" else rate.value
  }

  // ----- costs -------------------------------------------------------------

  /** A cost the constructor of Precise does not reject. */
  predicate IsReadable(cost: Option<string>) {
    cost.Some? ==> !Parse(cost.value).Malformed?
  }

  /** A written cost whose number of decimals is NaN. */
  predicate IsUnscaled(cost: Option<string>) {
    cost.Some? && Parse(cost.value).Unscaled?
  }

  /** The amount a cost stands for; a missing cost and one without scale stand for nothing. */
  ghost function Worth(cost: Option<string>): real {
    if cost.Some? && Parse(cost.value).Number? then Value(Parse(cost.value).dec) else 0.0
  }

  /** A written zero; reducing a zero gives it a scale. */
  ghost predicate IsZero(cost: Option<string>) {
    cost.Some? && !Parse(cost.value).Malformed? && Worth(cost) == 0.0
      && (Parse(cost.value).Unscaled? ==> Parse(cost.value).integer == 0)
  }

  /** Precise.stringEq(cost, '0') */
  predicate EqualsZero(cost: Option<string>)
    requires IsReadable(cost)
  {
    cost.Some? &&
      match Parse(cost.value)
      case Number(d) => Reduced(d) == Reduced(Dec(0, 0))
      case Unscaled(n) => n == 0
  }

  /** Thrown: the sum of a number without scale throws. */
  datatype Sum = Thrown | Sum(cost: Option<string>)

  /** Precise.stringAdd */
  function StringAdd(a: Option<string>, b: Option<string>): Sum
    requires IsReadable(a) && IsReadable(b)
  {
    if a == None then Sum(b)
    else if b == None then Sum(a)
    else if IsUnscaled(a) || IsUnscaled(b) then Thrown
    else Sum(Some(Print(Add(Parse(a.value).dec, Parse(b.value).dec))))
  }

  lemma EqualsZeroIsZero(cost: Option<string>)
    requires IsReadable(cost)
    ensures EqualsZero(cost) <==> IsZero(cost)
  {
    hide Parse, Value, Reduced;
    SignOfValue(Dec(0, 0));
    if cost.Some? && Parse(cost.value).Number? {
      ReducedUnique(Parse(cost.value).dec, Dec(0, 0));
    }
  }

  lemma StringAddExact(a: Option<string>, b: Option<string>)
    requires IsReadable(a) && IsReadable(b)
    ensures StringAdd(a, b).Thrown? <==> a.Some? && b.Some? && (IsUnscaled(a) || IsUnscaled(b))
    ensures StringAdd(a, b).Sum? ==>
      var sum := StringAdd(a, b).cost;
      && IsReadable(sum) && Worth(sum) == Worth(a) + Worth(b)
      && (sum == None <==> a == None && b == None)
      && (IsUnscaled(sum) ==> sum == a || sum == b)
      && (IsUnscaled(a) ==> sum == a) && (IsUnscaled(b) ==> sum == b)
  {
    hide Parse, Value, Print, Add;
    if a.Some? && b.Some? && !IsUnscaled(a) && !IsUnscaled(b) {
      var x, y := Parse(a.value).dec, Parse(b.value).dec;
      PrintRoundTrip(Add(x, y));
      AddExact(x, y);
    }
  }

  // ----- what a reduction is -----------------------------------------------

  ghost predicate HasPair(fee: Fee, currency: string, key: string) {
    fee.currency == Some(currency) && RateKey(fee.rate) == key
  }

  /** A fee that makes a line: its cost is missing or no written zero. */
  ghost predicate Contributes(fee: Fee, currency: string, key: string) {
    HasPair(fee, currency, key) && !IsZero(fee.cost)
  }

  ghost predicate Mentioned(fees: seq<Fee>, currency: string, key: string) {
    exists i :: 0 <= i < |fees| && Contributes(fees[i], currency, key)
  }

  ghost predicate Writes(fee: Fee, currency: string, key: string) {
    Contributes(fee, currency, key) && fee.cost.Some?
  }

  /** Two costs that are added to each other, one of them without scale. */
  ghost predicate Clash(a: Fee, b: Fee) {
    && a.currency.Some? && Writes(a, a.currency.value, RateKey(a.rate)) && Writes(b, a.currency.value, RateKey(a.rate))
    && (IsUnscaled(a.cost) || IsUnscaled(b.cost))
  }

  /** What the fees of one currency and rate add up to. */
  ghost function Total(fees: seq<Fee>, currency: string, key: string): real {
    if fees == [] then 0.0
    else
      var last := fees[|fees| - 1];
      Total(fees[..|fees| - 1], currency, key) + if HasPair(last, currency, key) then Worth(last.cost) else 0.0
  }

  /** What the fees of one currency add up to. */
  ghost function CurrencyTotal(fees: seq<Fee>, currency: string): real {
    if fees == [] then 0.0
    else
      var last := fees[|fees| - 1];
      CurrencyTotal(fees[..|fees| - 1], currency) + if last.currency == Some(currency) then Worth(last.cost) else 0.0
  }

  /** What the lines of one currency add up to. */
  ghost function LinesTotal(lines: seq<Entry>, currency: string): real {
    if lines == [] then 0.0
    else
      var last := lines[|lines| - 1];
      LinesTotal(lines[..|lines| - 1], currency) + if last.currency == currency then Worth(last.cost) else 0.0
  }

  ghost predicate SamePair(a: Entry, b: Entry) {
    a.currency == b.currency && RateKey(a.rate) == RateKey(b.rate)
  }

  ghost predicate DistinctPairs(lines: seq<Entry>) {
    forall i, j :: 0 <= i < j < |lines| ==> !SamePair(lines[i], lines[j])
  }

  ghost predicate IsSource(fee: Fee, cost: Option<string>, currency: string, key: string) {
    Writes(fee, currency, key) && (IsUnscaled(cost) ==> fee.cost == cost)
  }

  /** A readable cost that is worth the exact total; it has no scale only as the sole written cost of its pair. */
  ghost predicate CostIsTotal(cost: Option<string>, fees: seq<Fee>, currency: string, key: string) {
    && IsReadable(cost) && Worth(cost) == Total(fees, currency, key)
    && (cost.Some? ==> exists i :: 0 <= i < |fees| && IsSource(fees[i], cost, currency, key))
    && (forall i :: 0 <= i < |fees| && Writes(fees[i], currency, key) ==>
      cost.Some? && (IsUnscaled(fees[i].cost) ==> cost == fees[i].cost))
  }

  /** Is the i-th fee the only one of its pair with a written cost? */
  ghost predicate IsSole(fees: seq<Fee>, i: nat, currency: string, key: string)
    requires i < |fees|
  {
    Writes(fees[i], currency, key) && forall j :: 0 <= j < |fees| && j != i ==> !Writes(fees[j], currency, key)
  }

  /** A sole cost keeps its text; a sum is printed. */
  ghost predicate KeepsText(cost: Option<string>, fees: seq<Fee>, currency: string, key: string) {
    forall i :: 0 <= i < |fees| && Writes(fees[i], currency, key) ==>
      if IsSole(fees, i, currency, key) then cost == fees[i].cost else IsPrinted(cost)
  }

  ghost predicate IsPrinted(cost: Option<string>) {
    exists d: Dec :: cost == Some(Print(d))
  }

  ghost predicate IsLineOf(line: Entry, fees: seq<Fee>) {
    && Mentioned(fees, line.currency, RateKey(line.rate))
    && CostIsTotal(line.cost, fees, line.currency, RateKey(line.rate))
    && KeepsText(line.cost, fees, line.currency, RateKey(line.rate))
  }

  ghost predicate HasLine(lines: seq<Entry>, currency: string, key: string) {
    exists j :: 0 <= j < |lines| && lines[j].currency == currency && RateKey(lines[j].rate) == key
  }

  /** Every pair that some fee contributes to has a line. */
  ghost predicate CoversAll(lines: seq<Entry>, fees: seq<Fee>) {
    forall c, k :: Mentioned(fees, c, k) ==> HasLine(lines, c, k)
  }

  /** One line for each pair that some fee contributes to, with the exact sum as its cost. */
  ghost predicate IsReduction(lines: seq<Entry>, fees: seq<Fee>) {
    && DistinctPairs(lines)
    && (forall j :: 0 <= j < |lines| ==> IsLineOf(lines[j], fees))
    && CoversAll(lines, fees)
  }

  // ----- money is conserved ------------------------------------------------

  /** The sums of the pairs the lines name, within one currency. */
  ghost function PairTotals(lines: seq<Entry>, fees: seq<Fee>, currency: string): real {
    if lines == [] then 0.0
    else
      var last := lines[|lines| - 1];
      PairTotals(lines[..|lines| - 1], fees, currency)
        + if last.currency == currency then Total(fees, currency, RateKey(last.rate)) else 0.0
  }

  lemma {:induction false} LinesArePairs(lines: seq<Entry>, fees: seq<Fee>, currency: string)
    requires forall j :: 0 <= j < |lines| ==> IsLineOf(lines[j], fees)
    ensures LinesTotal(lines, currency) == PairTotals(lines, fees, currency)
  {
    hide Worth, Total, Mentioned, IsReadable, Writes, IsUnscaled;
    if lines != [] {
      LinesArePairs(lines[..|lines| - 1], fees, currency);
    }
  }

  lemma {:induction false} NoFeesNoTotals(lines: seq<Entry>, currency: string)
    ensures PairTotals(lines, [], currency) == 0.0
  {
    if lines != [] {
      NoFeesNoTotals(lines[..|lines| - 1], currency);
    }
  }

  /** What one more fee adds to the line of its own pair, and to no other. */
  lemma {:induction false} OneMoreFee(lines: seq<Entry>, fees: seq<Fee>, fee: Fee, currency: string)
    requires DistinctPairs(lines)
    ensures PairTotals(lines, fees + [fee], currency) == PairTotals(lines, fees, currency)
      + if fee.currency == Some(currency) && HasLine(lines, currency, RateKey(fee.rate)) then Worth(fee.cost) else 0.0
  {
    hide Worth, RateKey;
    var key := RateKey(fee.rate);
    if lines != [] {
      var rest, last := lines[..|lines| - 1], lines[|lines| - 1];
      OneMoreFee(rest, fees, fee, currency);
      assert (fees + [fee])[..|fees|] == fees;
      if last.currency == currency && RateKey(last.rate) == key {
        assert !HasLine(rest, currency, key);
      } else if HasLine(lines, currency, key) {
        assert HasLine(rest, currency, key);
      }
    }
  }

  lemma FewerMentioned(fees: seq<Fee>, fee: Fee, currency: string, key: string)
    ensures Mentioned(fees, currency, key) ==> Mentioned(fees + [fee], currency, key)
    ensures Contributes(fee, currency, key) ==> Mentioned(fees + [fee], currency, key)
    ensures Mentioned(fees + [fee], currency, key) ==> Mentioned(fees, currency, key) || Contributes(fee, currency, key)
  {
    hide Contributes;
    var all := fees + [fee];
    if Mentioned(fees, currency, key) {
      var i :| 0 <= i < |fees| && Contributes(fees[i], currency, key);
      assert all[i] == fees[i];
    }
    assert all[|fees|] == fee;
  }

  lemma {:induction false} PairsMakeCurrencies(lines: seq<Entry>, fees: seq<Fee>, currency: string)
    requires DistinctPairs(lines) && CoversAll(lines, fees)
    ensures PairTotals(lines, fees, currency) == CurrencyTotal(fees, currency)
  {
    hide Worth, Mentioned, HasLine, DistinctPairs;
    if fees == [] {
      NoFeesNoTotals(lines, currency);
    } else {
      var rest, fee := fees[..|fees| - 1], fees[|fees| - 1];
      assert rest + [fee] == fees;
      forall c, k ensures Mentioned(rest, c, k) ==> HasLine(lines, c, k) {
        FewerMentioned(rest, fee, c, k);
      }
      PairsMakeCurrencies(lines, rest, currency);
      OneMoreFee(lines, rest, fee, currency);
      if fee.currency == Some(currency) && Worth(fee.cost) != 0.0 {
        FewerMentioned(rest, fee, currency, RateKey(fee.rate));
      }
    }
  }

  /** Reducing fees leaves the exact total of every currency as it was. */
  lemma ReductionConserves(lines: seq<Entry>, fees: seq<Fee>, currency: string)
    requires IsReduction(lines, fees)
    ensures LinesTotal(lines, currency) == CurrencyTotal(fees, currency)
  {
    LinesArePairs(lines, fees, currency);
    PairsMakeCurrencies(lines, fees, currency);
  }

  // ----- the loop over the fees --------------------------------------------

  ghost predicate InTable(table: Table, currency: string, key: string) {
    currency in table && key in table[currency]
  }

  ghost predicate GoodEntry(e: Entry, currency: string, key: string, fees: seq<Fee>) {
    && e.currency == currency && RateKey(e.rate) == key
    && CostIsTotal(e.cost, fees, currency, key) && KeepsText(e.cost, fees, currency, key)
  }

  /** The table holds the sums of the fees taken in so far. */
  ghost predicate Tabulates(table: Table, fees: seq<Fee>) {
    && (forall c, k :: InTable(table, c, k) <==> Mentioned(fees, c, k))
    && forall c, k :: InTable(table, c, k) ==> GoodEntry(table[c][k], c, k, fees)
  }

  lemma {:induction false} UnmentionedIsZero(fees: seq<Fee>, currency: string, key: string)
    requires !Mentioned(fees, currency, key)
    ensures Total(fees, currency, key) == 0.0
  {
    if fees != [] {
      var rest, fee := fees[..|fees| - 1], fees[|fees| - 1];
      assert rest + [fee] == fees;
      FewerMentioned(rest, fee, currency, key);
      UnmentionedIsZero(rest, currency, key);
    }
  }

  function CostAt(table: Table, currency: string, key: string): Option<string>
    requires currency in table && key in table[currency]
  {
    table[currency][key].cost
  }

  /** The line a fee goes to, after the fee; None when adding the cost throws. */
  function Line(table: Table, fee: Fee): Option<Entry>
    requires fee.currency.Some? && IsReadable(fee.cost)
    requires var c, k := fee.currency.value, RateKey(fee.rate);
      c in table && k in table[c] ==> IsReadable(CostAt(table, c, k))
  {
    var c, k := fee.currency.value, RateKey(fee.rate);
    if c in table && k in table[c] then
      var sum := StringAdd(CostAt(table, c, k), fee.cost);
      if sum.Thrown? then None else Some(table[c][k].(cost := sum.cost))
    else Some(Entry(c, fee.rate, fee.cost))
  }

  function Put(table: Table, currency: string, key: string, line: Entry): Table {
    table[currency := (if currency in table then table[currency] else map[])[key := line]]
  }

  lemma TotalOneMore(fees: seq<Fee>, fee: Fee, currency: string, key: string)
    ensures Total(fees + [fee], currency, key) ==
      Total(fees, currency, key) + if HasPair(fee, currency, key) then Worth(fee.cost) else 0.0
  {
    assert (fees + [fee])[..|fees|] == fees;
  }

  lemma SumIsTotal(cost: Option<string>, fees: seq<Fee>, fee: Fee, currency: string, key: string)
    requires IsReadable(cost) && IsReadable(fee.cost) && CostIsTotal(cost, fees, currency, key)
    requires Contributes(fee, currency, key) && StringAdd(cost, fee.cost).Sum?
    ensures CostIsTotal(StringAdd(cost, fee.cost).cost, fees + [fee], currency, key)
  {
    hide Worth, StringAdd, Total, Parse, Contributes, IsUnscaled, IsReadable, HasPair;
    ContributesHasPair(fee, currency, key);
    TotalOneMore(fees, fee, currency, key);
    StringAddExact(cost, fee.cost);
    var all, sum := fees + [fee], StringAdd(cost, fee.cost).cost;
    assert all[|fees|] == fee && forall i :: 0 <= i < |fees| ==> all[i] == fees[i];
    if sum.Some? {
      if fee.cost.Some? && (IsUnscaled(sum) ==> fee.cost == sum) {
        assert IsSource(all[|fees|], sum, currency, key);
      } else {
        var i :| 0 <= i < |fees| && IsSource(fees[i], cost, currency, key);
        assert IsSource(all[i], sum, currency, key);
      }
    }
  }

  lemma ContributesHasPair(fee: Fee, currency: string, key: string)
    requires Contributes(fee, currency, key)
    ensures HasPair(fee, currency, key)
  {
  }

  lemma FirstIsTotal(fees: seq<Fee>, fee: Fee, currency: string, key: string)
    requires IsReadable(fee.cost) && !Mentioned(fees, currency, key) && Contributes(fee, currency, key)
    ensures CostIsTotal(fee.cost, fees + [fee], currency, key)
  {
    hide Worth, Total, Contributes, IsUnscaled, IsReadable, HasPair;
    UnmentionedIsZero(fees, currency, key);
    TotalOneMore(fees, fee, currency, key);
    ContributesHasPair(fee, currency, key);
    NothingWritten(fees, currency, key);
    var all := fees + [fee];
    assert all[|fees|] == fee && forall i :: 0 <= i < |fees| ==> all[i] == fees[i];
    if fee.cost.Some? {
      assert IsSource(all[|fees|], fee.cost, currency, key);
    }
  }

  lemma NothingWritten(fees: seq<Fee>, currency: string, key: string)
    requires !Mentioned(fees, currency, key)
    ensures forall i :: 0 <= i < |fees| ==> !Writes(fees[i], currency, key)
  {
  }

  lemma SumText(cost: Option<string>, fees: seq<Fee>, fee: Fee, currency: string, key: string)
    requires IsReadable(cost) && IsReadable(fee.cost) && StringAdd(cost, fee.cost).Sum?
    requires CostIsTotal(cost, fees, currency, key) && KeepsText(cost, fees, currency, key)
    requires Contributes(fee, currency, key)
    ensures KeepsText(StringAdd(cost, fee.cost).cost, fees + [fee], currency, key)
  {
    var all, sum := fees + [fee], StringAdd(cost, fee.cost).cost;
    SumIsPrinted(cost, fee.cost);
    hide Worth, StringAdd, Total, Parse, Contributes, IsUnscaled, IsReadable, HasPair, IsPrinted;
    assert all[|fees|] == fee && forall i :: 0 <= i < |fees| ==> all[i] == fees[i];
    forall i | 0 <= i < |fees| && Writes(fees[i], currency, key)
      ensures if IsSole(all, i, currency, key) then sum == fees[i].cost else IsPrinted(sum)
    {
      assert fee.cost.None? ==> IsSole(all, i, currency, key) == IsSole(fees, i, currency, key);
    }
    if fee.cost.Some? && cost.Some? {
      var i :| 0 <= i < |fees| && IsSource(fees[i], cost, currency, key);
      assert Writes(all[i], currency, key);
    }
  }

  lemma SumIsPrinted(a: Option<string>, b: Option<string>)
    requires IsReadable(a) && IsReadable(b) && StringAdd(a, b).Sum?
    ensures a.Some? && b.Some? ==> IsPrinted(StringAdd(a, b).cost)
    ensures a.None? ==> StringAdd(a, b).cost == b
    ensures b.None? ==> StringAdd(a, b).cost == a
  {
    hide Parse, Print, Add;
  }

  lemma FirstText(fees: seq<Fee>, fee: Fee, currency: string, key: string)
    requires !Mentioned(fees, currency, key) && Contributes(fee, currency, key)
    ensures KeepsText(fee.cost, fees + [fee], currency, key)
  {
    NothingWritten(fees, currency, key);
    hide Contributes;
    var all := fees + [fee];
    assert all[|fees|] == fee && forall i :: 0 <= i < |fees| ==> all[i] == fees[i];
  }

  lemma OtherText(cost: Option<string>, fees: seq<Fee>, fee: Fee, currency: string, key: string)
    requires !Contributes(fee, currency, key) && KeepsText(cost, fees, currency, key)
    ensures KeepsText(cost, fees + [fee], currency, key)
  {
    hide Contributes, IsPrinted;
    var all := fees + [fee];
    assert all[|fees|] == fee && forall i :: 0 <= i < |fees| ==> all[i] == fees[i];
    forall i | 0 <= i < |fees| ensures IsSole(all, i, currency, key) == IsSole(fees, i, currency, key) {
    }
  }

  lemma LineIsGood(table: Table, fees: seq<Fee>, fee: Fee)
    requires fee.currency.Some? && IsReadable(fee.cost) && Tabulates(table, fees)
    requires Contributes(fee, fee.currency.value, RateKey(fee.rate))
    ensures var c, k := fee.currency.value, RateKey(fee.rate);
      && (c in table && k in table[c] ==> IsReadable(CostAt(table, c, k)))
      && (Line(table, fee).Some? ==> GoodEntry(Line(table, fee).value, c, k, fees + [fee]))
  {
    hide Worth, RateKey, StringAdd, Mentioned, Contributes, CostIsTotal, KeepsText;
    var c, k := fee.currency.value, RateKey(fee.rate);
    if InTable(table, c, k) {
      CostIsReadable(CostAt(table, c, k), fees, c, k);
      if StringAdd(CostAt(table, c, k), fee.cost).Sum? {
        SumIsTotal(CostAt(table, c, k), fees, fee, c, k);
        SumText(CostAt(table, c, k), fees, fee, c, k);
      }
    } else {
      FirstIsTotal(fees, fee, c, k);
      FirstText(fees, fee, c, k);
    }
  }

  lemma CostIsReadable(cost: Option<string>, fees: seq<Fee>, currency: string, key: string)
    requires CostIsTotal(cost, fees, currency, key)
    ensures IsReadable(cost)
  {
  }

  ghost predicate ClashesWith(fees: seq<Fee>, fee: Fee) {
    exists i :: 0 <= i < |fees| && Clash(fees[i], fee)
  }

  lemma ClashAtLine(cost: Option<string>, fees: seq<Fee>, fee: Fee, currency: string, key: string)
    requires fee.currency == Some(currency) && RateKey(fee.rate) == key && Contributes(fee, currency, key)
    requires CostIsTotal(cost, fees, currency, key)
    ensures cost.Some? && fee.cost.Some? && (IsUnscaled(cost) || IsUnscaled(fee.cost)) <==> ClashesWith(fees, fee)
  {
    hide Contributes, RateKey, IsUnscaled, Total, Worth, IsReadable;
    PairOf(fees, currency, key);
    if cost.Some? && fee.cost.Some? && (IsUnscaled(cost) || IsUnscaled(fee.cost)) {
      var i :| 0 <= i < |fees| && IsSource(fees[i], cost, currency, key);
      assert Clash(fees[i], fee);
    }
    if ClashesWith(fees, fee) {
      var i :| 0 <= i < |fees| && Clash(fees[i], fee);
      ClashPair(fees[i], fee, currency, key);
    }
  }

  lemma NoClashAtFirst(fees: seq<Fee>, fee: Fee, currency: string, key: string)
    requires fee.currency == Some(currency) && RateKey(fee.rate) == key && !Mentioned(fees, currency, key)
    ensures !ClashesWith(fees, fee)
  {
    hide Contributes, RateKey, IsUnscaled;
    if ClashesWith(fees, fee) {
      var i :| 0 <= i < |fees| && Clash(fees[i], fee);
      ClashPair(fees[i], fee, currency, key);
    }
  }

  /** Adding a cost throws exactly when it clashes with an earlier one. */
  lemma ThrownIsClash(table: Table, fees: seq<Fee>, fee: Fee)
    requires fee.currency.Some? && IsReadable(fee.cost) && Tabulates(table, fees)
    requires Contributes(fee, fee.currency.value, RateKey(fee.rate))
    requires var c, k := fee.currency.value, RateKey(fee.rate);
      c in table && k in table[c] ==> IsReadable(CostAt(table, c, k))
    ensures Line(table, fee).None? <==> ClashesWith(fees, fee)
  {
    hide StringAdd, Contributes, RateKey, IsUnscaled, CostIsTotal, Mentioned, ClashesWith, IsReadable;
    var c, k := fee.currency.value, RateKey(fee.rate);
    if InTable(table, c, k) {
      StringAddExact(CostAt(table, c, k), fee.cost);
      ClashAtLine(CostAt(table, c, k), fees, fee, c, k);
    } else {
      NoClashAtFirst(fees, fee, c, k);
    }
  }

  lemma PairOf(fees: seq<Fee>, currency: string, key: string)
    ensures forall i :: 0 <= i < |fees| && Writes(fees[i], currency, key) ==>
      fees[i].currency == Some(currency) && RateKey(fees[i].rate) == key
  {
  }

  lemma ClashPair(a: Fee, b: Fee, currency: string, key: string)
    requires Clash(a, b) && b.currency == Some(currency) && RateKey(b.rate) == key
    ensures Writes(a, currency, key)
  {
  }

  lemma OtherPairSame(fees: seq<Fee>, fee: Fee, currency: string, key: string)
    requires !Contributes(fee, currency, key)
    ensures Total(fees + [fee], currency, key) == Total(fees, currency, key)
    ensures forall cost :: CostIsTotal(cost, fees, currency, key) ==> CostIsTotal(cost, fees + [fee], currency, key)
    ensures forall cost :: KeepsText(cost, fees, currency, key) ==> KeepsText(cost, fees + [fee], currency, key)
  {
    forall cost | KeepsText(cost, fees, currency, key) ensures KeepsText(cost, fees + [fee], currency, key) {
      OtherText(cost, fees, fee, currency, key);
    }
    TotalOneMore(fees, fee, currency, key);
    SkippedIsWorthless(fee, currency, key);
    hide Worth, Total, Contributes, IsUnscaled, IsReadable, HasPair, KeepsText;
    var all := fees + [fee];
    assert all[|fees|] == fee && forall i :: 0 <= i < |fees| ==> all[i] == fees[i];
    forall cost | CostIsTotal(cost, fees, currency, key) ensures CostIsTotal(cost, all, currency, key) {
      if cost.Some? {
        var i :| 0 <= i < |fees| && IsSource(fees[i], cost, currency, key);
        assert IsSource(all[i], cost, currency, key);
      }
    }
  }

  lemma SkippedIsWorthless(fee: Fee, currency: string, key: string)
    ensures !Contributes(fee, currency, key) && HasPair(fee, currency, key) ==> Worth(fee.cost) == 0.0
  {
  }

  lemma PutTabulates(table: Table, fees: seq<Fee>, fee: Fee, line: Entry)
    requires fee.currency.Some? && Tabulates(table, fees)
    requires Contributes(fee, fee.currency.value, RateKey(fee.rate))
    requires GoodEntry(line, fee.currency.value, RateKey(fee.rate), fees + [fee])
    ensures Tabulates(Put(table, fee.currency.value, RateKey(fee.rate), line), fees + [fee])
  {
    OnlyOwnPair(fee);
    hide Worth, RateKey, Mentioned, Total, CostIsTotal, Contributes, KeepsText;
    var currency, key := fee.currency.value, RateKey(fee.rate);
    var next := Put(table, currency, key, line);
    forall c, k
      ensures InTable(next, c, k) <==> Mentioned(fees + [fee], c, k)
      ensures InTable(next, c, k) ==> GoodEntry(next[c][k], c, k, fees + [fee])
    {
      FewerMentioned(fees, fee, c, k);
      if c != currency || k != key {
        OtherPairSame(fees, fee, c, k);
        assert InTable(next, c, k) <==> InTable(table, c, k);
      }
    }
  }

  lemma OnlyOwnPair(fee: Fee)
    ensures forall c, k :: Contributes(fee, c, k) ==> fee.currency == Some(c) && RateKey(fee.rate) == k
  {
  }

  lemma SkipTabulates(table: Table, fees: seq<Fee>, fee: Fee)
    requires Tabulates(table, fees)
    requires fee.currency.Some? ==> IsZero(fee.cost)
    ensures Tabulates(table, fees + [fee])
  {
    SkippedContributesNot(fee);
    hide Worth, RateKey, Mentioned, Total, CostIsTotal, Contributes, KeepsText;
    forall c, k
      ensures Mentioned(fees + [fee], c, k) <==> Mentioned(fees, c, k)
      ensures InTable(table, c, k) ==> GoodEntry(table[c][k], c, k, fees + [fee])
    {
      FewerMentioned(fees, fee, c, k);
      OtherPairSame(fees, fee, c, k);
    }
  }

  lemma SkippedClashesNot(fees: seq<Fee>, fee: Fee)
    requires fee.currency.Some? ==> IsZero(fee.cost)
    ensures !ClashesWith(fees, fee)
  {
    SkippedContributesNot(fee);
    hide Contributes, IsUnscaled, RateKey;
  }

  lemma SkippedContributesNot(fee: Fee)
    requires fee.currency.Some? ==> IsZero(fee.cost)
    ensures forall c, k :: !Contributes(fee, c, k)
  {
  }

  // ----- from the table to the list ----------------------------------------

  /** Object.keys, in some order. */
  method KeysOf<V>(m: map<string, V>) returns (keys: seq<string>)
    ensures forall k :: k in keys <==> k in m
    ensures forall i, j :: 0 <= i < j < |keys| ==> keys[i] != keys[j]
  {
    keys := [];
    var rest := m.Keys;
    while rest != {}
      invariant forall k :: k in m <==> k in keys || k in rest
      invariant forall i :: 0 <= i < |keys| ==> keys[i] !in rest
      invariant forall i, j :: 0 <= i < j < |keys| ==> keys[i] != keys[j]
    {
      var k :| k in rest;
      keys, rest := keys + [k], rest - {k};
    }
  }

  /** Object.values, in some order. */
  method ValuesOf(m: map<string, Entry>, ghost currency: string) returns (values: seq<Entry>)
    requires forall k :: k in m ==> m[k].currency == currency && RateKey(m[k].rate) == k
    ensures DistinctPairs(values)
    ensures forall j :: 0 <= j < |values| ==>
      values[j].currency == currency && RateKey(values[j].rate) in m && values[j] == m[RateKey(values[j].rate)]
    ensures forall k :: k in m ==> HasLine(values, currency, k)
  {
    hide RateKey;
    var keys := KeysOf(m);
    values := seq(|keys|, i requires 0 <= i < |keys| => m[keys[i]]);
    forall k | k in m ensures HasLine(values, currency, k) {
      assert k in keys;
      var i :| 0 <= i < |keys| && keys[i] == k;
      assert values[i] == m[k];
    }
  }

  ghost predicate ListsCurrencies(lines: seq<Entry>, table: Table, codes: seq<string>) {
    && DistinctPairs(lines)
    && (forall j :: 0 <= j < |lines| ==>
        && lines[j].currency in codes && InTable(table, lines[j].currency, RateKey(lines[j].rate))
        && lines[j] == table[lines[j].currency][RateKey(lines[j].rate)])
    && forall c, k :: c in codes && InTable(table, c, k) ==> HasLine(lines, c, k)
  }

  lemma ListOneMore(lines: seq<Entry>, table: Table, codes: seq<string>, code: string, values: seq<Entry>)
    requires ListsCurrencies(lines, table, codes) && code !in codes && code in table
    requires DistinctPairs(values)
    requires forall j :: 0 <= j < |values| ==>
      && values[j].currency == code && RateKey(values[j].rate) in table[code]
      && values[j] == table[code][RateKey(values[j].rate)]
    requires forall k :: k in table[code] ==> HasLine(values, code, k)
    ensures ListsCurrencies(lines + values, table, codes + [code])
  {
    hide RateKey;
    var all := lines + values;
    forall c, k | c in codes + [code] && InTable(table, c, k) ensures HasLine(all, c, k) {
      if c == code {
        assert HasLine(values, code, k);
        var j :| 0 <= j < |values| && values[j].currency == code && RateKey(values[j].rate) == k;
        assert all[|lines| + j] == values[j];
      } else {
        assert HasLine(lines, c, k);
        var j :| 0 <= j < |lines| && lines[j].currency == c && RateKey(lines[j].rate) == k;
        assert all[j] == lines[j];
      }
    }
  }

  /** The second loop: the lines of every currency one after the other. */
  method Listed(table: Table) returns (lines: seq<Entry>)
    requires forall c, k :: InTable(table, c, k) ==> table[c][k].currency == c && RateKey(table[c][k].rate) == k
    ensures DistinctPairs(lines)
    ensures forall j :: 0 <= j < |lines| ==>
      && InTable(table, lines[j].currency, RateKey(lines[j].rate))
      && lines[j] == table[lines[j].currency][RateKey(lines[j].rate)]
    ensures forall c, k :: InTable(table, c, k) ==> HasLine(lines, c, k)
  {
    hide RateKey, HasLine;
    lines := [];
    var codes := KeysOf(table);
    for i := 0 to |codes|
      invariant ListsCurrencies(lines, table, codes[..i])
    {
      assert codes[i] in codes;
      assert forall k :: k in table[codes[i]] ==> InTable(table, codes[i], k);
      var values := ValuesOf(table[codes[i]], codes[i]);
      ListOneMore(lines, table, codes[..i], codes[i], values);
      assert codes[..i + 1] == codes[..i] + [codes[i]];
      lines := lines + values;
    }
    assert codes[..|codes|] == codes;
  }

  /** A fee whose cost the constructor of Precise rejects. */
  predicate Rejected(fee: Fee) {
    fee.currency.Some? && !IsReadable(fee.cost)
  }

  /** What makes the reduction throw: a rejected cost, or two costs of one pair of which one has no scale. */
  ghost predicate Throws(fees: seq<Fee>) {
    || (exists i :: 0 <= i < |fees| && Rejected(fees[i]))
    || (exists i, j :: 0 <= i < j < |fees| && Clash(fees[i], fees[j]))
  }

  lemma ThrowsStep(fees: seq<Fee>, i: nat)
    requires i < |fees| && !Throws(fees[..i])
    ensures Throws(fees[..i + 1]) <==> Rejected(fees[i]) || ClashesWith(fees[..i], fees[i])
    ensures Throws(fees[..i + 1]) ==> Throws(fees)
  {
    hide Clash, Rejected;
    var before, all := fees[..i], fees[..i + 1];
    assert forall k :: 0 <= k < i ==> before[k] == all[k];
    assert all[i] == fees[i];
    if ClashesWith(before, fees[i]) {
      var k :| 0 <= k < i && Clash(before[k], fees[i]);
      assert Clash(all[k], all[i]);
    }
    assert forall k :: 0 <= k <= i ==> all[k] == fees[k];
  }

  lemma TableIsReduction(table: Table, fees: seq<Fee>, lines: seq<Entry>)
    requires Tabulates(table, fees) && DistinctPairs(lines)
    requires forall j :: 0 <= j < |lines| ==>
      && InTable(table, lines[j].currency, RateKey(lines[j].rate))
      && lines[j] == table[lines[j].currency][RateKey(lines[j].rate)]
    requires forall c, k :: InTable(table, c, k) ==> HasLine(lines, c, k)
    ensures IsReduction(lines, fees)
  {
    hide RateKey, CostIsTotal, Mentioned, HasLine;
  }

  /** One more fee in the table; None when reading or adding its cost throws. */
  function Taken(table: Table, fee: Fee): Option<Table>
    requires fee.currency.Some? && IsReadable(fee.cost) ==>
      var c, k := fee.currency.value, RateKey(fee.rate);
      c in table && k in table[c] ==> IsReadable(CostAt(table, c, k))
  {
    if fee.currency.None? then Some(table)
    else if !IsReadable(fee.cost) then None
    else if EqualsZero(fee.cost) then Some(table)
    else
      var line := Line(table, fee);
      if line.None? then None else Some(Put(table, fee.currency.value, RateKey(fee.rate), line.value))
  }

  lemma CostsAreReadable(table: Table, fees: seq<Fee>)
    requires Tabulates(table, fees)
    ensures forall c, k :: InTable(table, c, k) ==> IsReadable(CostAt(table, c, k))
  {
    hide Worth, Total, Mentioned, Writes, Parse;
  }

  lemma TakenTabulates(table: Table, fees: seq<Fee>, fee: Fee)
    requires Tabulates(table, fees)
    ensures forall c, k :: InTable(table, c, k) ==> IsReadable(CostAt(table, c, k))
    ensures Taken(table, fee).None? <==> Rejected(fee) || ClashesWith(fees, fee)
    ensures Taken(table, fee).Some? ==> Tabulates(Taken(table, fee).value, fees + [fee])
  {
    hide Worth, RateKey, EqualsZero, Line, Tabulates, Contributes, ClashesWith, Put, IsReadable;
    CostsAreReadable(table, fees);
    if fee.currency.Some? && IsReadable(fee.cost) {
      EqualsZeroIsZero(fee.cost);
      if EqualsZero(fee.cost) {
        SkipTabulates(table, fees, fee);
        SkippedClashesNot(fees, fee);
      } else {
        ContributesAtOwnPair(fee);
        LineIsGood(table, fees, fee);
        ThrownIsClash(table, fees, fee);
        if Line(table, fee).Some? {
          PutTabulates(table, fees, fee, Line(table, fee).value);
        }
      }
    } else if fee.currency.None? {
      SkipTabulates(table, fees, fee);
      SkippedClashesNot(fees, fee);
    }
  }

  // ----- the reduction told from the fees as given -------------------------

  /** Undefined, null or an empty text. */
  ghost predicate Lacks(p: Property) {
    p.Missing? || p.text == ""
  }

  /** A fee with this currency text and this rate text, or with no rate. */
  ghost predicate IsFor(fee: GivenFee, currency: string, rate: Option<string>) {
    && !Lacks(fee.currency) && fee.currency.text == currency
    && (if rate.None? then Lacks(fee.rate) else !Lacks(fee.rate) && fee.rate.text == rate.value)
  }

  /** The number a cost text denotes. */
  ghost function Amount(cost: Property): real {
    if cost.Text? && Parse(cost.text).Number? then Value(Parse(cost.text).dec) else 0.0
  }

  ghost function Amounts(given: seq<GivenFee>, currency: string, rate: Option<string>): real {
    if given == [] then 0.0
    else
      var last := given[|given| - 1];
      Amounts(given[..|given| - 1], currency, rate) + if IsFor(last, currency, rate) then Amount(last.cost) else 0.0
  }

  /** A cost that is no written zero. */
  ghost predicate Counts(cost: Property) {
    Lacks(cost) || !IsZero(Some(cost.text))
  }

  ghost predicate SameKind(a: GivenFee, b: GivenFee) {
    && !Lacks(a.currency) && !Lacks(b.currency) && a.currency.text == b.currency.text
    && (Lacks(a.rate) <==> Lacks(b.rate)) && (!Lacks(a.rate) ==> a.rate.text == b.rate.text)
  }

  /** Two written costs of one kind that are added, one of them without scale. */
  ghost predicate CannotAdd(a: GivenFee, b: GivenFee) {
    && SameKind(a, b) && !Lacks(a.cost) && !Lacks(b.cost) && Counts(a.cost) && Counts(b.cost)
    && (Parse(a.cost.text).Unscaled? || Parse(b.cost.text).Unscaled?)
  }

  /** A cost that is a number, or a text that is none. */
  ghost predicate CannotRead(fee: GivenFee) {
    !Lacks(fee.currency) && (fee.cost.Numeral? || (!Lacks(fee.cost) && Parse(fee.cost.text).Malformed?))
  }

  ghost predicate CannotReduce(given: seq<GivenFee>) {
    || (exists i :: 0 <= i < |given| && CannotRead(given[i]))
    || (exists i, j :: 0 <= i < j < |given| && CannotAdd(given[i], given[j]))
  }

  /** A given fee of the line whose cost is written and no zero. */
  ghost predicate Pays(fee: GivenFee, line: Entry) {
    IsFor(fee, line.currency, line.rate) && !Lacks(fee.cost) && Counts(fee.cost)
  }

  ghost predicate PaysAlone(given: seq<GivenFee>, i: nat, line: Entry)
    requires i < |given|
  {
    Pays(given[i], line) && forall j :: 0 <= j < |given| && j != i ==> !Pays(given[j], line)
  }

  /** The line is for some given fee that counts, and its cost is worth all their amounts; a cost that is written alone
      keeps its text, a sum is printed, and without a written cost there is none. */
  ghost predicate Sums(line: Entry, given: seq<GivenFee>) {
    && (exists i :: 0 <= i < |given| && IsFor(given[i], line.currency, line.rate) && Counts(given[i].cost))
    && IsReadable(line.cost) && Worth(line.cost) == Amounts(given, line.currency, line.rate)
    && (line.cost.Some? <==> exists i :: 0 <= i < |given| && Pays(given[i], line))
    && forall i :: 0 <= i < |given| && Pays(given[i], line) ==>
      if PaysAlone(given, i, line) then line.cost == Some(given[i].cost.text) else IsPrinted(line.cost)
  }

  ghost predicate HasLineFor(lines: seq<Entry>, fee: GivenFee) {
    exists j :: 0 <= j < |lines| && IsFor(fee, lines[j].currency, lines[j].rate)
  }

  /** One line for each currency and rate of a fee that counts, with the sum of the given costs. */
  ghost predicate Reduces(lines: seq<Entry>, given: seq<GivenFee>) {
    && (forall i, j :: 0 <= i < j < |lines| ==>
      lines[i].currency != lines[j].currency || lines[i].rate != lines[j].rate)
    && (forall j :: 0 <= j < |lines| ==> Sums(lines[j], given))
    && forall i :: 0 <= i < |given| && !Lacks(given[i].currency) && Counts(given[i].cost) ==> HasLineFor(lines, given[i])
  }

  lemma ReadIs(fee: GivenFee, currency: string, rate: Option<string>)
    requires rate != Some("")
    ensures HasPair(Read(fee), currency, RateKey(rate)) <==> IsFor(fee, currency, rate)
    ensures Read(fee).cost.None? <==> Lacks(fee.cost)
    ensures !Lacks(fee.cost) ==> Read(fee).cost == Some(fee.cost.text)
    ensures Read(fee).currency.None? <==> Lacks(fee.currency)
    ensures Contributes(Read(fee), currency, RateKey(rate)) <==> IsFor(fee, currency, rate) && Counts(fee.cost)
    ensures Read(fee).rate != Some("")
  {
    hide Worth;
  }

  lemma RejectedIs(fee: GivenFee)
    ensures HasNumeralCost(fee) || Rejected(Read(fee)) <==> CannotRead(fee)
  {
    hide Parse;
  }

  lemma ClashIs(a: GivenFee, b: GivenFee)
    requires !HasNumeralCost(a) && !HasNumeralCost(b)
    ensures Clash(Read(a), Read(b)) <==> CannotAdd(a, b)
  {
    hide Parse, IsZero;
  }

  lemma {:induction false} AmountsAreTotal(given: seq<GivenFee>, currency: string, rate: Option<string>)
    requires rate != Some("") && forall i :: 0 <= i < |given| ==> !HasNumeralCost(given[i])
    ensures Amounts(given, currency, rate) == Total(ReadAll(given), currency, RateKey(rate))
  {
    hide Parse, Value;
    if given != [] {
      var before, last := given[..|given| - 1], given[|given| - 1];
      AmountsAreTotal(before, currency, rate);
      assert ReadAll(given)[..|given| - 1] == ReadAll(before);
      ReadIs(last, currency, rate);
      hide ReadAll, RateKey;
      if IsFor(last, currency, rate) {
        AmountIsWorth(last);
      }
    }
  }

  lemma AmountIsWorth(fee: GivenFee)
    requires !Lacks(fee.currency) && !HasNumeralCost(fee)
    ensures Amount(fee.cost) == Worth(Read(fee).cost)
  {
    hide Parse;
    if fee.cost == Text("") {
      EmptyIsZero();
    }
  }

  lemma EmptyIsZero()
    ensures Parse("").Number? ==> Value(Parse("").dec) == 0.0
  {
  }

  /** No line has an empty rate. */
  ghost predicate HasRates(table: Table) {
    forall c, k :: InTable(table, c, k) ==> table[c][k].rate != Some("")
  }

  lemma TakenHasRates(table: Table, fee: Fee)
    requires HasRates(table) && fee.rate != Some("")
    requires forall c, k :: InTable(table, c, k) ==> IsReadable(CostAt(table, c, k))
    ensures Taken(table, fee).Some? ==> HasRates(Taken(table, fee).value)
  {
    hide StringAdd, IsReadable, EqualsZero;
  }

  lemma PayersWrite(line: Entry, given: seq<GivenFee>)
    requires line.rate != Some("")
    ensures var fees, c, k := ReadAll(given), line.currency, RateKey(line.rate);
      forall i :: 0 <= i < |given| ==>
        && (Contributes(fees[i], c, k) <==> IsFor(given[i], c, line.rate) && Counts(given[i].cost))
        && (Writes(fees[i], c, k) <==> Pays(given[i], line))
        && (Pays(given[i], line) ==> fees[i].cost == Some(given[i].cost.text))
  {
    hide IsZero, Contributes, Counts, IsFor, Lacks, RateKey;
    forall i | 0 <= i < |given|
      ensures var fees, c, k := ReadAll(given), line.currency, RateKey(line.rate);
        && (Contributes(fees[i], c, k) <==> IsFor(given[i], c, line.rate) && Counts(given[i].cost))
        && (Writes(fees[i], c, k) <==> Pays(given[i], line))
        && (Pays(given[i], line) ==> fees[i].cost == Some(given[i].cost.text))
    {
      ReadIs(given[i], line.currency, line.rate);
    }
  }

  lemma LineSums(line: Entry, given: seq<GivenFee>)
    requires IsLineOf(line, ReadAll(given)) && line.rate != Some("")
    requires forall i :: 0 <= i < |given| ==> !HasNumeralCost(given[i])
    ensures Sums(line, given)
  {
    var fees, c, k := ReadAll(given), line.currency, RateKey(line.rate);
    AmountsAreTotal(given, c, line.rate);
    PayersWrite(line, given);
    hide Worth, IsZero, Total, Amounts, Contributes, Counts, IsFor, Pays, HasNumeralCost, RateKey, IsReadable, IsUnscaled,
      IsPrinted, Writes;
    var i :| 0 <= i < |fees| && Contributes(fees[i], c, k);
    assert IsFor(given[i], line.currency, line.rate) && Counts(given[i].cost);
    if line.cost.Some? {
      var i :| 0 <= i < |fees| && IsSource(fees[i], line.cost, c, k);
      assert Pays(given[i], line);
    }
    forall i | 0 <= i < |given| ensures IsSole(fees, i, c, k) <==> PaysAlone(given, i, line) {
    }
  }

  lemma GivenHasLine(lines: seq<Entry>, given: seq<GivenFee>, i: nat)
    requires CoversAll(lines, ReadAll(given)) && i < |given| && !Lacks(given[i].currency) && Counts(given[i].cost)
    requires forall j :: 0 <= j < |lines| ==> lines[j].rate != Some("")
    ensures HasLineFor(lines, given[i])
  {
    var fee := Read(given[i]);
    var rate := fee.rate;
    ReadIs(given[i], given[i].currency.text, rate);
    hide Counts, IsZero;
    assert Contributes(ReadAll(given)[i], fee.currency.value, RateKey(rate));
    assert Mentioned(ReadAll(given), fee.currency.value, RateKey(rate));
    var j :| 0 <= j < |lines| && lines[j].currency == fee.currency.value && RateKey(lines[j].rate) == RateKey(rate);
    assert IsFor(given[i], lines[j].currency, lines[j].rate);
  }

  lemma ReductionReduces(lines: seq<Entry>, given: seq<GivenFee>)
    requires IsReduction(lines, ReadAll(given))
    requires forall j :: 0 <= j < |lines| ==> lines[j].rate != Some("")
    requires forall i :: 0 <= i < |given| ==> !HasNumeralCost(given[i])
    ensures Reduces(lines, given)
  {
    hide IsLineOf, CoversAll, Sums, HasLineFor, Counts, Lacks, HasNumeralCost;
    forall j | 0 <= j < |lines| ensures Sums(lines[j], given) {
      LineSums(lines[j], given);
    }
    forall i | 0 <= i < |given| && !Lacks(given[i].currency) && Counts(given[i].cost)
      ensures HasLineFor(lines, given[i])
    {
      GivenHasLine(lines, given, i);
    }
    forall i, j | 0 <= i < j < |lines|
      ensures lines[i].currency != lines[j].currency || lines[i].rate != lines[j].rate
    {
      assert !SamePair(lines[i], lines[j]);
    }
  }

  lemma ThrowsIs(given: seq<GivenFee>)
    ensures (exists i :: 0 <= i < |given| && HasNumeralCost(given[i])) || Throws(ReadAll(given)) <==> CannotReduce(given)
  {
    hide Clash, Rejected, CannotRead, CannotAdd, HasNumeralCost, Read;
    var fees := ReadAll(given);
    forall i | 0 <= i < |given|
      ensures HasNumeralCost(given[i]) || Rejected(fees[i]) <==> CannotRead(given[i])
    {
      RejectedIs(given[i]);
    }
    if forall i :: 0 <= i < |given| ==> !HasNumeralCost(given[i]) {
      forall i, j | 0 <= i < j < |given| ensures Clash(fees[i], fees[j]) <==> CannotAdd(given[i], given[j]) {
        ClashIs(given[i], given[j]);
      }
    }
  }

  /** One line per currency and rate, each the exact sum; None when the reduction throws. */
  method ReduceFeesByCurrency(given: seq<GivenFee>) returns (r: Option<seq<Entry>>)
    ensures r.None? <==> CannotReduce(given)
    ensures r.Some? ==> Reduces(r.value, given) && IsReduction(r.value, ReadAll(given))
  {
    hide RateKey, IsReduction, Taken, Tabulates, Throws, DistinctPairs, HasLine, IsReadable, Rejected, ClashesWith, Read,
      HasNumeralCost, HasRates, Reduces, CannotReduce;
    ghost var fees := ReadAll(given);
    var reduced: Table := map[];
    NothingTabulated();
    ThrowsIs(given);
    assert fees[..0] == [];
    for i := 0 to |given|
      invariant Tabulates(reduced, fees[..i]) && !Throws(fees[..i]) && HasRates(reduced)
      invariant forall k :: 0 <= k < i ==> !HasNumeralCost(given[k])
    {
      if HasNumeralCost(given[i]) {
        return None;
      }
      var fee := Read(given[i]);
      assert fees[..i + 1] == fees[..i] + [fee];
      ThrowsStep(fees, i);
      TakenTabulates(reduced, fees[..i], fee);
      ReadIs(given[i], "", None);
      TakenHasRates(reduced, fee);
      var taken := Taken(reduced, fee);
      if taken.None? {
        return None;
      }
      reduced := taken.value;
    }
    assert fees[..|fees|] == fees;
    EntriesAtTheirKeys(reduced, fees);
    var lines := Listed(reduced);
    TableIsReduction(reduced, fees, lines);
    LinesHaveRates(reduced, lines);
    ReductionReduces(lines, given);
    r := Some(lines);
  }

  lemma LinesHaveRates(table: Table, lines: seq<Entry>)
    requires HasRates(table)
    requires forall j :: 0 <= j < |lines| ==>
      && InTable(table, lines[j].currency, RateKey(lines[j].rate))
      && lines[j] == table[lines[j].currency][RateKey(lines[j].rate)]
    ensures forall j :: 0 <= j < |lines| ==> lines[j].rate != Some("")
  {
    hide RateKey;
  }

  lemma NothingTabulated()
    ensures Tabulates(map[], []) && !Throws([]) && HasRates(map[])
  {
  }

  lemma EntriesAtTheirKeys(table: Table, fees: seq<Fee>)
    requires Tabulates(table, fees)
    ensures forall c, k :: InTable(table, c, k) ==> table[c][k].currency == c && RateKey(table[c][k].rate) == k
  {
    hide RateKey, CostIsTotal, Mentioned;
  }

  lemma ContributesAtOwnPair(fee: Fee)
    requires fee.currency.Some? && !IsZero(fee.cost)
    ensures Contributes(fee, fee.currency.value, RateKey(fee.rate))
  {
  }

  // ----- a cost without scale ----------------------------------------------

  const NO_SCALE := Fee(Some("BTC"), None, Some("15e"))

  lemma NoScaleReads()
    ensures Parse("15e").Unscaled? && Parse("15e").integer == 15
  {
    var m := Mantissa("", Decimal(Unsigned, "15"), "", None);
    DecimalFifteen();
    hide DigitsValue, Parse;
    assert Bare(m) == "15" && 'e' !in CoreText(m.core);
    assert MantissaText(m) + "e" + "" == "15e" == Lower("15e");
    ReadsBehindMark("15e", MantissaText(m), "");
    SplitWhole("", "e");
    assert ParseInt("") == None;
    MantissaReads(m, None);
  }

  /** The text 15e alone is kept as it is; two of them throw. */
  lemma NoScaleThrows()
    ensures IsUnscaled(NO_SCALE.cost) && Worth(NO_SCALE.cost) == 0.0
    ensures !Throws([NO_SCALE]) && Throws([NO_SCALE, NO_SCALE])
  {
    NoScaleReads();
    hide Parse;
    var fees := [NO_SCALE, NO_SCALE];
    assert Writes(NO_SCALE, "BTC", "");
    assert Clash(fees[0], fees[1]);
  }
}
