/** The basic and the counted side of an order book, and the price map they stand for. */
module OrderBookSides {
  import opened SortedIndex

  /** A price level; only counted sides use the order count. */
  datatype Level = Level(price: real, size: real, count: real)

  datatype Amount = Amount(size: real, count: real)

  const MAX_SAFE_INTEGER: nat := 9007199254740991

  function Keys(side: bool, levels: seq<Level>): (r: seq<real>)
    ensures |r| == |levels| && forall i :: 0 <= i < |r| ==> r[i] == KeyOf(side, levels[i].price)
  {
    seq(|levels|, i requires 0 <= i < |levels| => KeyOf(side, levels[i].price))
  }

  // ----- the map a list of levels stands for -------------------------------

  function MapOf(levels: seq<Level>): map<real, Amount> {
    if levels == [] then map[]
    else
      var l := levels[|levels| - 1];
      MapOf(levels[..|levels| - 1])[l.price := Amount(l.size, l.count)]
  }

  /** Does this delta set a level, rather than delete one? */
  predicate Sets(counted: bool, d: Level) {
    d.size != 0.0 && (counted ==> d.count != 0.0)
  }

  /** One delta applied to the map of surviving levels. */
  function Applied(counted: bool, m: map<real, Amount>, d: Level): map<real, Amount> {
    if !Sets(counted, d) then m - {d.price}
    else if !counted && d.price in m then m[d.price := Amount(d.size, m[d.price].count)]
    else m[d.price := Amount(d.size, d.count)]
  }

  function AppliedAll(counted: bool, m: map<real, Amount>, deltas: seq<Level>): map<real, Amount> {
    if deltas == [] then m
    else Applied(counted, AppliedAll(counted, m, deltas[..|deltas| - 1]), deltas[|deltas| - 1])
  }

  /** The last delta that mentions a price, -1 if none does. */
  function LastMention(deltas: seq<Level>, price: real): (k: int)
    ensures -1 <= k < |deltas|
    ensures k >= 0 ==> deltas[k].price == price
    ensures forall i :: k < i < |deltas| ==> deltas[i].price != price
  {
    if deltas == [] then -1
    else if deltas[|deltas| - 1].price == price then |deltas| - 1
    else LastMention(deltas[..|deltas| - 1], price)
  }

  /** Over a whole run, a price survives exactly when the last delta that mentions it has a size and, on a counted side, a
      count, and with those. */
  lemma {:induction false} Survivors(counted: bool, m: map<real, Amount>, deltas: seq<Level>, price: real)
    ensures var k := LastMention(deltas, price);
      var r := AppliedAll(counted, m, deltas);
      && (k == -1 ==> (price in r <==> price in m) && (price in m ==> r[price] == m[price]))
      && (k >= 0 ==> (price in r <==> deltas[k].size != 0.0 && (counted ==> deltas[k].count != 0.0)))
      && (k >= 0 && price in r ==> r[price].size == deltas[k].size && (counted ==> r[price].count == deltas[k].count))
  {
    if deltas != [] {
      Survivors(counted, m, deltas[..|deltas| - 1], price);
    }
  }

  /** What one delta does to the map. */
  lemma StoredInMap(counted: bool, m: map<real, Amount>, d: Level)
    ensures var r := Applied(counted, m, d);
      if d.size == 0.0 || (counted && d.count == 0.0) then r == m - {d.price}
      else
        && r.Keys == m.Keys + {d.price}
        && r[d.price].size == d.size
        && r[d.price].count == (if !counted && d.price in m then m[d.price].count else d.count)
        && r - {d.price} == m - {d.price}
  {
  }

  // ----- lists against maps ------------------------------------------------

  lemma {:induction false} MapOfKeys(levels: seq<Level>, price: real)
    ensures price in MapOf(levels) <==> exists i :: 0 <= i < |levels| && levels[i].price == price
  {
    if levels != [] {
      MapOfKeys(levels[..|levels| - 1], price);
      assert levels[|levels| - 1].price in MapOf(levels);
    }
  }

  /** The map holds every level's size and count. */
  lemma {:induction false} MapOfLevel(levels: seq<Level>, i: nat)
    requires i < |levels| && forall j :: i < j < |levels| ==> levels[j].price != levels[i].price
    ensures levels[i].price in MapOf(levels)
    ensures MapOf(levels)[levels[i].price] == Amount(levels[i].size, levels[i].count)
  {
    if i < |levels| - 1 {
      MapOfLevel(levels[..|levels| - 1], i);
    }
  }

  lemma {:induction false} MapOfConcat(a: seq<Level>, b: seq<Level>)
    ensures MapOf(a + b) == MapOf(a) + MapOf(b)
  {
    if b == [] {
      assert a + b == a;
    } else {
      MapOfConcat(a, b[..|b| - 1]);
      assert (a + b)[..|a + b| - 1] == a + b[..|b| - 1];
    }
  }

  ghost predicate DistinctPrices(levels: seq<Level>) {
    forall i, j :: 0 <= i < j < |levels| ==> levels[i].price != levels[j].price
  }

  lemma MapOfMiddle(a: seq<Level>, l: Level, b: seq<Level>)
    requires DistinctPrices(a + [l] + b)
    ensures MapOf(a + [l] + b) == MapOf(a + b)[l.price := Amount(l.size, l.count)]
    ensures l.price !in MapOf(a + b)
  {
    MapOfOne(l);
    hide MapOf;
    MapOfConcat(a + [l], b);
    MapOfConcat(a, [l]);
    MapOfConcat(a, b);
    OtherPrices(a, l, b);
    MapOfKeys(a + b, l.price);
    MapOfKeys(b, l.price);
  }

  lemma MapOfOne(l: Level)
    ensures MapOf([l]) == map[l.price := Amount(l.size, l.count)]
  {
    assert MapOf([l][..0]) == map[];
  }

  lemma OtherPrices(a: seq<Level>, l: Level, b: seq<Level>)
    requires DistinctPrices(a + [l] + b)
    ensures forall i :: 0 <= i < |a + b| ==> (a + b)[i].price != l.price
    ensures forall i :: 0 <= i < |b| ==> b[i].price != l.price
  {
    var all := a + [l] + b;
    assert all[|a|] == l;
    forall i | 0 <= i < |a + b| ensures (a + b)[i].price != l.price {
      assert (a + b)[i] == all[if i < |a| then i else i + 1];
    }
    forall i | 0 <= i < |b| ensures b[i].price != l.price {
      assert b[i] == all[|a| + 1 + i];
    }
  }

  lemma InsertInMap(levels: seq<Level>, at: nat, l: Level)
    requires at <= |levels| && DistinctPrices(InsertAt(levels, at, l))
    ensures MapOf(InsertAt(levels, at, l)) == MapOf(levels)[l.price := Amount(l.size, l.count)]
    ensures l.price !in MapOf(levels)
  {
    hide MapOf, DistinctPrices;
    SplitSequence(levels, at);
    MapOfMiddle(levels[..at], l, levels[at..]);
  }

  lemma RemoveFromMap(levels: seq<Level>, at: nat)
    requires at < |levels| && DistinctPrices(levels)
    ensures MapOf(RemoveAt(levels, at)) == MapOf(levels) - {levels[at].price}
    ensures levels[at].price in MapOf(levels)
  {
    hide MapOf;
    assert levels == levels[..at] + [levels[at]] + levels[at + 1..];
    MapOfMiddle(levels[..at], levels[at], levels[at + 1..]);
  }

  lemma UpdateInMap(levels: seq<Level>, at: nat, l: Level)
    requires at < |levels| && DistinctPrices(levels) && l.price == levels[at].price
    ensures MapOf(levels[at := l]) == MapOf(levels)[l.price := Amount(l.size, l.count)]
    ensures l.price in MapOf(levels) && MapOf(levels)[l.price] == Amount(levels[at].size, levels[at].count)
  {
    hide MapOf;
    var a, b := levels[..at], levels[at + 1..];
    assert levels == a + [levels[at]] + b;
    assert levels[at := l] == a + [l] + b;
    MapOfMiddle(a, levels[at], b);
    MapOfMiddle(a, l, b);
  }

  /** Sorted by key without repetitions: asks ascending, bids descending. */
  ghost predicate SortedLevels(side: bool, levels: seq<Level>) {
    StrictlySorted(Keys(side, levels))
  }

  lemma SortedIsDistinct(side: bool, levels: seq<Level>)
    requires SortedLevels(side, levels)
    ensures DistinctPrices(levels)
  {
    forall i, j | 0 <= i < j < |levels| ensures levels[i].price != levels[j].price {
      assert Keys(side, levels)[i] < Keys(side, levels)[j];
    }
  }

  /** The map determines the sorted list of levels. */
  lemma {:induction false} SortedListIsUnique(side: bool, a: seq<Level>, b: seq<Level>)
    requires SortedLevels(side, a) && SortedLevels(side, b) && MapOf(a) == MapOf(b)
    ensures a == b
  {
    hide MapOf, StrictlySorted;
    if a == [] || b == [] {
      EmptyMap(a, b);
    } else {
      var x, y := a[|a| - 1], b[|b| - 1];
      LastIsLargest(side, a, b);
      LastIsLargest(side, b, a);
      LastSplitsOff(side, a);
      LastSplitsOff(side, b);
      SortedListIsUnique(side, a[..|a| - 1], b[..|b| - 1]);
      assert a == a[..|a| - 1] + [x] && b == b[..|b| - 1] + [y];
    }
  }

  lemma EmptyMap(a: seq<Level>, b: seq<Level>)
    requires MapOf(a) == MapOf(b) && (a == [] || b == [])
    ensures a == b
  {
    if a != [] {
      MapOfKeys(a, a[0].price);
    }
    if b != [] {
      MapOfKeys(b, b[0].price);
    }
  }

  lemma LastSplitsOff(side: bool, a: seq<Level>)
    requires SortedLevels(side, a) && a != []
    ensures var x := a[|a| - 1];
      && SortedLevels(side, a[..|a| - 1])
      && x.price in MapOf(a) && MapOf(a)[x.price] == Amount(x.size, x.count)
      && MapOf(a[..|a| - 1]) == MapOf(a) - {x.price}
  {
    hide MapOf;
    SortedIsDistinct(side, a);
    SortedPrefix(side, a, |a| - 1);
    UpdateInMap(a, |a| - 1, a[|a| - 1]);
    RemoveFromMap(a, |a| - 1);
    assert RemoveAt(a, |a| - 1) == a[..|a| - 1];
  }

  lemma LastIsLargest(side: bool, a: seq<Level>, b: seq<Level>)
    requires SortedLevels(side, a) && SortedLevels(side, b) && MapOf(a) == MapOf(b) && a != [] && b != []
    ensures KeyOf(side, a[|a| - 1].price) <= KeyOf(side, b[|b| - 1].price)
  {
    hide MapOf, SortedLevels;
    var p := a[|a| - 1].price;
    MapOfKeys(a, p);
    MapOfKeys(b, p);
    var j :| 0 <= j < |b| && b[j].price == p;
    if j < |b| - 1 {
      KeyOrder(side, b, j, |b| - 1);
    }
  }

  lemma SortedPrefix(side: bool, levels: seq<Level>, n: nat)
    requires SortedLevels(side, levels) && n <= |levels|
    ensures SortedLevels(side, levels[..n])
  {
    assert Keys(side, levels[..n]) == Keys(side, levels)[..n];
  }

  // ----- the side ----------------------------------------------------------

  /** OrderBookSide when counted is false, CountedOrderBookSide when it is true. */
  class OrderBookSide {
    const side: bool
    const counted: bool
    const depth: nat
    var index: array<real>
    var levels: seq<Level>

    /** Index and levels in step, strictly sorted, sentinels behind, and room for one more key. */
    ghost predicate Valid()
      reads this, index
    {
      SortedLevels(side, levels) && IsIndex(index[..], Keys(side, levels))
    }

    ghost function Contents(): map<real, Amount>
      reads this
    {
      MapOf(levels)
    }

    constructor (side: bool, counted: bool, deltas: seq<Level>, depth: nat)
      requires forall d :: d in deltas ==> -MAX_VALUE < d.price < MAX_VALUE
      ensures Valid() && fresh(index)
      ensures this.side == side && this.counted == counted
      ensures this.depth == if depth == 0 then MAX_SAFE_INTEGER else depth
      ensures Contents() == AppliedAll(counted, map[], deltas)
    {
      this.side, this.counted := side, counted;
      this.depth := if depth == 0 then MAX_SAFE_INTEGER else depth;
      index := new real[SIZE](_ => MAX_VALUE);
      levels := [];
      new;
      assert index[..] == Sentinels(SIZE);
      StoreAll(deltas);
    }

    method StoreArray(delta: Level)
      requires Valid() && -MAX_VALUE < delta.price < MAX_VALUE
      modifies this, index
      ensures Valid() && (index == old(index) || fresh(index))
      ensures Contents() == Applied(counted, old(Contents()), delta)
      ensures
        if delta.size == 0.0 || (counted && delta.count == 0.0) then Contents() == old(Contents()) - {delta.price}
        else
          && Contents().Keys == old(Contents()).Keys + {delta.price}
          && Contents()[delta.price].size == delta.size
          && Contents()[delta.price].count == (if !counted && delta.price in old(Contents())
            then old(Contents())[delta.price].count else delta.count)
          && Contents() - {delta.price} == old(Contents()) - {delta.price}
    {
      StoredInMap(counted, Contents(), delta);
      var price, size := delta.price, delta.size;
      var indexPrice := if side then -price else price;
      ghost var keys := Keys(side, levels);
      var i := Locate(index, keys, indexPrice);
      SortedIsDistinct(side, levels);
      if Sets(counted, delta) {
        if index[i] == indexPrice {
          ghost var before := levels;
          levels := levels[i := if counted then levels[i].(size := size, count := delta.count)
                                else levels[i].(size := size)];
          assert Keys(side, levels) == keys;
          UpdateInMap(before, i, levels[i]);
        } else {
          InsertLevel(i, delta);
        }
      } else if index[i] == indexPrice {
        RemoveLevel(i);
      } else {
        PriceIsAbsent(side, levels, price, i);
      }
    }

    method InsertLevel(i: nat, delta: Level)
      requires Valid() && -MAX_VALUE < delta.price < MAX_VALUE
      requires i <= |levels| && Splits(Keys(side, levels), KeyOf(side, delta.price), i)
      requires i < |levels| ==> Keys(side, levels)[i] != KeyOf(side, delta.price)
      modifies this, index
      ensures Valid() && (index == old(index) || fresh(index))
      ensures Contents() == old(Contents())[delta.price := Amount(delta.size, delta.count)]
      ensures delta.price !in old(Contents())
    {
      ghost var keys, before := Keys(side, levels), levels;
      var key := KeyOf(side, delta.price);
      InsertKey(index, keys, i, key);
      levels := InsertAt(levels, i, delta);
      InsertKeepsSorted(keys, i, key);
      assert Keys(side, levels) == InsertAt(keys, i, key);
      index := Grow(index, Keys(side, levels), |levels|);
      SortedIsDistinct(side, levels);
      InsertInMap(before, i, delta);
    }

    method RemoveLevel(i: nat)
      requires Valid() && i < |levels|
      modifies this, index
      ensures Valid() && index == old(index)
      ensures Contents() == old(Contents()) - {old(levels[i].price)}
    {
      ghost var keys, before := Keys(side, levels), levels;
      RemoveKey(index, keys, i, |levels|);
      levels := RemoveAt(levels, i);
      RemoveKeepsSorted(keys, i);
      assert Keys(side, levels) == RemoveAt(keys, i);
      SortedIsDistinct(side, before);
      RemoveFromMap(before, i);
    }

    method StoreAll(deltas: seq<Level>)
      requires Valid() && forall d :: d in deltas ==> -MAX_VALUE < d.price < MAX_VALUE
      modifies this, index
      ensures Valid() && (index == old(index) || fresh(index))
      ensures Contents() == AppliedAll(counted, old(Contents()), deltas)
    {
      ghost var start := Contents();
      for i := 0 to |deltas|
        invariant Valid() && (index == old(index) || fresh(index))
        invariant Contents() == AppliedAll(counted, start, deltas[..i])
      {
        StoreArray(deltas[i]);
        assert deltas[..i + 1][..i] == deltas[..i];
      }
      assert deltas[..|deltas|] == deltas;
    }

    /** index.fill (MAX_VALUE) and length = 0, as a book reset does. */
    method Clear()
      requires index.Length > 0
      modifies this, index
      ensures Valid() && index == old(index) && levels == [] && Contents() == map[]
    {
      for i := 0 to index.Length
        invariant index == old(index) && forall j :: 0 <= j < i ==> index[j] == MAX_VALUE
      {
        index[i] := MAX_VALUE;
      }
      levels := [];
      assert index[..] == Sentinels(index.Length);
    }

    /** Cuts the side off at its depth. */
    method Limit()
      requires Valid()
      modifies this, index
      ensures Valid() && index == old(index)
      ensures levels == old(levels)[..if |old(levels)| > depth then depth else |old(levels)|]
      ensures IsBestOf(side, Contents(), old(Contents()))
    {
      hide MapOf, IsBestOf;
      BestLevels(side, levels, if |levels| > depth then depth else |levels|);
      assert levels[..|levels|] == levels;
      if |levels| > depth {
        ghost var keys, before := Keys(side, levels), index[..];
        FillSentinels(index, depth, |levels|);
        CutIndex(before, keys, depth);
        SortedPrefix(side, levels, depth);
        levels := levels[..depth];
        assert Keys(side, levels) == keys[..depth];
      }
    }
  }

  method FillSentinels(index: array<real>, from: nat, to: nat)
    requires from <= to <= index.Length
    modifies index
    ensures index[..] == old(index[..from]) + Sentinels(to - from) + old(index[to..])
  {
    ghost var before := index[..];
    for i := from to to
      invariant index[..] == before[..from] + Sentinels(i - from) + before[i..]
    {
      index[i] := MAX_VALUE;
    }
  }

  lemma CutIndex(index: seq<real>, keys: seq<real>, depth: nat)
    requires IsIndex(index, keys) && depth <= |keys|
    ensures IsIndex(index[..depth] + Sentinels(|keys| - depth) + index[|keys|..], keys[..depth])
  {
  }

  lemma PriceIsAbsent(side: bool, levels: seq<Level>, price: real, i: nat)
    requires SortedLevels(side, levels) && i <= |levels|
    requires Splits(Keys(side, levels), KeyOf(side, price), i)
    requires i < |levels| ==> Keys(side, levels)[i] != KeyOf(side, price)
    ensures price !in MapOf(levels)
  {
    hide MapOf, StrictlySorted, Splits;
    MapOfKeys(levels, price);
    KeyIsAbsent(Keys(side, levels), KeyOf(side, price), i);
    forall j | 0 <= j < |levels| ensures levels[j].price != price {
      assert Keys(side, levels)[j] != KeyOf(side, price);
    }
  }

  /** A part of the map that is better than all the rest: lower asks, higher bids. */
  ghost predicate IsBestOf(side: bool, part: map<real, Amount>, all: map<real, Amount>) {
    && (forall p :: p in part ==> p in all && part[p] == all[p])
    && (forall p, q :: p in part && q in all && q !in part ==> if side then p > q else p < q)
  }

  lemma PositionOf(levels: seq<Level>, price: real) returns (i: nat)
    requires price in MapOf(levels)
    ensures i < |levels| && levels[i].price == price
  {
    hide MapOf;
    MapOfKeys(levels, price);
    i :| 0 <= i < |levels| && levels[i].price == price;
  }

  /** Every price in front of a cut is better than every price behind it. */
  lemma FrontIsBetter(side: bool, levels: seq<Level>, n: nat, p: real, q: real)
    requires SortedLevels(side, levels) && n <= |levels| && p in MapOf(levels[..n]) && q in MapOf(levels[n..])
    ensures KeyOf(side, p) < KeyOf(side, q)
  {
    hide MapOf, SortedLevels;
    var i := PositionOf(levels[..n], p);
    var j := PositionOf(levels[n..], q);
    KeyOrder(side, levels, i, n + j);
  }

  lemma BestLevels(side: bool, levels: seq<Level>, n: nat)
    requires SortedLevels(side, levels) && n <= |levels|
    ensures IsBestOf(side, MapOf(levels[..n]), MapOf(levels))
  {
    hide MapOf, SortedLevels;
    var a, b := levels[..n], levels[n..];
    SplitSequence(levels, n);
    MapOfConcat(a, b);
    forall p, q | p in MapOf(a) && q in MapOf(b) ensures KeyOf(side, p) < KeyOf(side, q) {
      FrontIsBetter(side, levels, n, p, q);
    }
  }

  /** Sorted levels hold rising ask prices and falling bid prices, each price once. */
  lemma PricesAreSorted(side: bool, levels: seq<Level>)
    ensures SortedLevels(side, levels) <==>
      && (forall i, j :: 0 <= i < j < |levels| ==>
        if side then levels[i].price > levels[j].price else levels[i].price < levels[j].price)
      && forall i :: 0 <= i < |levels| ==> if side then -levels[i].price < MAX_VALUE else levels[i].price < MAX_VALUE
  {
    var keys := Keys(side, levels);
    forall i, j | 0 <= i < j < |levels|
      ensures keys[i] < keys[j] <==> if side then levels[i].price > levels[j].price else levels[i].price < levels[j].price
    {
    }
    hide KeyOf;
  }

  lemma KeyOrder(side: bool, levels: seq<Level>, i: nat, j: nat)
    requires SortedLevels(side, levels) && i < j < |levels|
    ensures KeyOf(side, levels[i].price) < KeyOf(side, levels[j].price)
  {
    assert Keys(side, levels)[i] < Keys(side, levels)[j];
  }
}
