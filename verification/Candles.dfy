/** Building candles from trades. */
module Candles {
  import opened Basics

  datatype Trade = Trade(timestamp: int, price: real, amount: real)

  datatype Candle = Candle(time: int, open: real, high: real, low: real, close: real, volume: real, count: nat)

  // ----- the trades a candle stands for ------------------------------------

  function Times(q: int, ms: int): int { q * ms }

  ghost predicate IsMultiple(x: int, ms: int) {
    exists q :: x == Times(q, ms)
  }

  /** The start of the period of length ms that holds a time. */
  function Opening(timestamp: int, ms: int): (r: int)
    requires ms > 0
    ensures r <= timestamp < r + ms && IsMultiple(r, ms)
  {
    Times(timestamp / ms, ms)
  }

  lemma NextMultiple(i: int, j: int, ms: int)
    requires ms > 0 && i < j
    ensures Times(i, ms) + ms <= Times(j, ms)
  {
    assert Times(j, ms) - Times(i, ms) == (j - i) * ms;
    assert (j - i - 1) * ms >= 0;
  }

  /** Two multiples of ms less than ms apart are equal. */
  lemma SameMultiple(a: int, b: int, ms: int)
    requires ms > 0 && IsMultiple(a, ms) && IsMultiple(b, ms) && a <= b < a + ms
    ensures a == b
  {
    hide Times;
    var i :| a == Times(i, ms);
    var j :| b == Times(j, ms);
    if i < j {
      NextMultiple(i, j, ms);
    } else if j < i {
      NextMultiple(j, i, ms);
    }
  }

  ghost predicate IsSorted(trades: seq<Trade>) {
    forall i, j :: 0 <= i < j < |trades| ==> trades[i].timestamp <= trades[j].timestamp
  }

  predicate IsLate(t: Trade, since: Option<int>) {
    since.Some? ==> t.timestamp >= since.value
  }

  /** The trades not older than since, in their order. */
  function Accepted(trades: seq<Trade>, since: Option<int>): seq<Trade> {
    if trades == [] then []
    else
      var last := trades[|trades| - 1];
      Accepted(trades[..|trades| - 1], since) + if IsLate(last, since) then [last] else []
  }

  /** The trades of one period, in their order. */
  ghost function Group(trades: seq<Trade>, time: int, ms: int): seq<Trade>
    requires ms > 0
  {
    if trades == [] then []
    else
      var last := trades[|trades| - 1];
      Group(trades[..|trades| - 1], time, ms) + if Opening(last.timestamp, ms) == time then [last] else []
  }

  ghost function Amounts(trades: seq<Trade>): real {
    if trades == [] then 0.0 else Amounts(trades[..|trades| - 1]) + trades[|trades| - 1].amount
  }

  ghost function Volumes(candles: seq<Candle>): real {
    if candles == [] then 0.0 else Volumes(candles[..|candles| - 1]) + candles[|candles| - 1].volume
  }

  ghost function Counts(candles: seq<Candle>): int {
    if candles == [] then 0 else Counts(candles[..|candles| - 1]) + candles[|candles| - 1].count
  }

  ghost predicate IsHighest(high: real, trades: seq<Trade>) {
    && (exists i :: 0 <= i < |trades| && trades[i].price == high)
    && forall i :: 0 <= i < |trades| ==> trades[i].price <= high
  }

  ghost predicate IsLowest(low: real, trades: seq<Trade>) {
    && (exists i :: 0 <= i < |trades| && trades[i].price == low)
    && forall i :: 0 <= i < |trades| ==> low <= trades[i].price
  }

  /** First, highest, lowest and last price, total amount and number of some trades. */
  ghost predicate Summarises(c: Candle, trades: seq<Trade>) {
    && trades != []
    && c.open == trades[0].price && c.close == trades[|trades| - 1].price
    && IsHighest(c.high, trades) && IsLowest(c.low, trades)
    && c.volume == Amounts(trades) && c.count == |trades|
  }

  ghost predicate StrictTimes(candles: seq<Candle>, ms: int)
    requires ms > 0
  {
    && (forall i, j :: 0 <= i < j < |candles| ==> candles[i].time < candles[j].time)
    && forall i :: 0 <= i < |candles| ==> IsMultiple(candles[i].time, ms)
  }

  ghost predicate HasCandle(candles: seq<Candle>, time: int) {
    exists j :: 0 <= j < |candles| && candles[j].time == time
  }

  /** The candles group the trades by period. */
  ghost predicate GroupsOf(candles: seq<Candle>, trades: seq<Trade>, ms: int)
    requires ms > 0
  {
    && StrictTimes(candles, ms)
    && (forall j :: 0 <= j < |candles| ==> Summarises(candles[j], Group(trades, candles[j].time, ms)))
    && forall i :: 0 <= i < |trades| ==> HasCandle(candles, Opening(trades[i].timestamp, ms))
  }

  // ----- one trade ---------------------------------------------------------

  function NewCandle(time: int, t: Trade): Candle {
    Candle(time, t.price, t.price, t.price, t.price, t.amount, 1)
  }

  function Updated(c: Candle, t: Trade): Candle {
    c.(high := if c.high >= t.price then c.high else t.price,
       low := if c.low <= t.price then c.low else t.price,
       close := t.price, volume := c.volume + t.amount, count := c.count + 1)
  }

  lemma GroupOneMore(trades: seq<Trade>, t: Trade, time: int, ms: int)
    requires ms > 0
    ensures Group(trades + [t], time, ms) ==
      Group(trades, time, ms) + if Opening(t.timestamp, ms) == time then [t] else []
  {
    assert (trades + [t])[..|trades|] == trades;
  }

  lemma AmountsOneMore(trades: seq<Trade>, t: Trade)
    ensures Amounts(trades + [t]) == Amounts(trades) + t.amount
  {
    assert (trades + [t])[..|trades|] == trades;
  }

  /** A group holds exactly the trades of its period. */
  lemma {:induction false} GroupMembers(trades: seq<Trade>, time: int, ms: int)
    requires ms > 0
    ensures forall t :: t in Group(trades, time, ms) <==> t in trades && Opening(t.timestamp, ms) == time
  {
    if trades != [] {
      var rest, last := trades[..|trades| - 1], trades[|trades| - 1];
      assert rest + [last] == trades;
      GroupMembers(rest, time, ms);
    }
  }

  lemma UpdatedSummarises(c: Candle, trades: seq<Trade>, t: Trade)
    requires Summarises(c, trades)
    ensures Summarises(Updated(c, t), trades + [t])
  {
    var all, u := trades + [t], Updated(c, t);
    AmountsOneMore(trades, t);
    assert all[|trades|] == t && all[0] == trades[0];
    var i :| 0 <= i < |trades| && trades[i].price == c.high;
    assert all[i] == trades[i];
    assert all[if u.high == c.high then i else |trades|].price == u.high;
    var j :| 0 <= j < |trades| && trades[j].price == c.low;
    assert all[j] == trades[j];
    assert all[if u.low == c.low then j else |trades|].price == u.low;
  }

  lemma NewSummarises(time: int, t: Trade)
    ensures Summarises(NewCandle(time, t), [t])
  {
    assert [t][0] == t;
    AmountsOneMore([], t);
  }

  /** Trades taken so far lie in periods up to the last candle's; the next one does not lie before it. */
  lemma LastIsLargest(candles: seq<Candle>, time: int, ms: int)
    requires ms > 0 && StrictTimes(candles, ms) && HasCandle(candles, time)
    ensures time <= candles[|candles| - 1].time
  {
  }

  lemma OpeningsOrdered(s: int, t: int, ms: int)
    requires ms > 0 && s <= t
    ensures Opening(s, ms) <= Opening(t, ms)
  {
    var a, b := Opening(s, ms), Opening(t, ms);
    hide Opening, IsMultiple;
    if b < a {
      SameMultiple(b, a, ms);
    }
  }

  lemma NextNotBefore(candles: seq<Candle>, trades: seq<Trade>, t: Trade, ms: int)
    requires ms > 0 && candles != [] && GroupsOf(candles, trades, ms) && IsSorted(trades + [t])
    ensures candles[|candles| - 1].time <= Opening(t.timestamp, ms)
    ensures forall i :: 0 <= i < |trades| ==> Opening(trades[i].timestamp, ms) <= candles[|candles| - 1].time
  {
    var last := candles[|candles| - 1];
    var group := Group(trades, last.time, ms);
    GroupMembers(trades, last.time, ms);
    assert group != [];
    hide Opening, Group, Summarises, StrictTimes, HasCandle;
    var i :| 0 <= i < |trades| && trades[i] == group[0];
    var all := trades + [t];
    assert all[i] == trades[i] && all[|trades|] == t;
    OpeningsOrdered(trades[i].timestamp, t.timestamp, ms);
    forall k | 0 <= k < |trades| ensures Opening(trades[k].timestamp, ms) <= last.time {
      LastIsLargest(candles, Opening(trades[k].timestamp, ms), ms);
    }
  }

  lemma OtherGroupsSame(candles: seq<Candle>, trades: seq<Trade>, t: Trade, ms: int, n: nat)
    requires ms > 0 && n <= |candles| && GroupsOf(candles, trades, ms)
    requires forall j :: 0 <= j < n ==> candles[j].time != Opening(t.timestamp, ms)
    ensures forall j :: 0 <= j < n ==> Summarises(candles[j], Group(trades + [t], candles[j].time, ms))
  {
    hide Group, Summarises, Opening;
    forall j | 0 <= j < n ensures Summarises(candles[j], Group(trades + [t], candles[j].time, ms)) {
      GroupOneMore(trades, t, candles[j].time, ms);
      assert Group(trades, candles[j].time, ms) + [] == Group(trades, candles[j].time, ms);
    }
  }

  lemma StillCovered(candles: seq<Candle>, next: seq<Candle>, trades: seq<Trade>, t: Trade, ms: int)
    requires ms > 0 && |candles| <= |next| && forall j :: 0 <= j < |candles| ==> candles[j].time == next[j].time
    requires forall i :: 0 <= i < |trades| ==> HasCandle(candles, Opening(trades[i].timestamp, ms))
    requires HasCandle(next, Opening(t.timestamp, ms))
    ensures forall i :: 0 <= i < |trades + [t]| ==> HasCandle(next, Opening((trades + [t])[i].timestamp, ms))
  {
    hide Opening;
    forall i | 0 <= i < |trades + [t]| ensures HasCandle(next, Opening((trades + [t])[i].timestamp, ms)) {
      if i < |trades| {
        var j :| 0 <= j < |candles| && candles[j].time == Opening(trades[i].timestamp, ms);
        assert next[j].time == candles[j].time;
      }
    }
  }

  lemma FirstIsMember(trades: seq<Trade>)
    ensures trades != [] ==> exists t :: t in trades
  {
    assert trades != [] ==> trades[0] in trades;
  }

  lemma EmptyGroup(candles: seq<Candle>, trades: seq<Trade>, t: Trade, ms: int)
    requires ms > 0 && GroupsOf(candles, trades, ms) && IsSorted(trades + [t])
    requires candles == [] || Opening(t.timestamp, ms) >= candles[|candles| - 1].time + ms
    ensures Group(trades, Opening(t.timestamp, ms), ms) == []
    ensures forall j :: 0 <= j < |candles| ==> candles[j].time < Opening(t.timestamp, ms)
  {
    hide Opening, Summarises, IsSorted, Group, IsMultiple;
    if candles != [] {
      NextNotBefore(candles, trades, t, ms);
    }
    GroupMembers(trades, Opening(t.timestamp, ms), ms);
    FirstIsMember(Group(trades, Opening(t.timestamp, ms), ms));
  }

  lemma NewCandleGroups(candles: seq<Candle>, trades: seq<Trade>, t: Trade, ms: int)
    requires ms > 0 && GroupsOf(candles, trades, ms) && IsSorted(trades + [t])
    requires candles == [] || Opening(t.timestamp, ms) >= candles[|candles| - 1].time + ms
    ensures GroupsOf(candles + [NewCandle(Opening(t.timestamp, ms), t)], trades + [t], ms)
  {
    hide Summarises, Opening, IsSorted, Group, IsMultiple;
    var time := Opening(t.timestamp, ms);
    var next := candles + [NewCandle(time, t)];
    EmptyGroup(candles, trades, t, ms);
    GroupOneMore(trades, t, time, ms);
    NewSummarises(time, t);
    assert Group(trades + [t], time, ms) == [t];
    OtherGroupsSame(candles, trades, t, ms, |candles|);
    assert next[|candles|].time == time;
    assert StrictTimes(next, ms);
    StillCovered(candles, next, trades, t, ms);
  }

  lemma UpdateGroups(candles: seq<Candle>, trades: seq<Trade>, t: Trade, ms: int)
    requires ms > 0 && GroupsOf(candles, trades, ms) && IsSorted(trades + [t]) && candles != []
    requires Opening(t.timestamp, ms) < candles[|candles| - 1].time + ms
    ensures GroupsOf(candles[|candles| - 1 := Updated(candles[|candles| - 1], t)], trades + [t], ms)
  {
    hide Summarises, Opening, IsSorted;
    var n := |candles| - 1;
    var last := candles[n];
    var next := candles[n := Updated(last, t)];
    NextNotBefore(candles, trades, t, ms);
    SameMultiple(last.time, Opening(t.timestamp, ms), ms);
    GroupOneMore(trades, t, last.time, ms);
    UpdatedSummarises(last, Group(trades, last.time, ms), t);
    OtherGroupsSame(candles, trades, t, ms, n);
    assert next[n].time == last.time;
    StillCovered(candles, next, trades, t, ms);
  }

  // ----- totals ------------------------------------------------------------

  lemma PushTotals(candles: seq<Candle>, c: Candle)
    ensures Volumes(candles + [c]) == Volumes(candles) + c.volume
    ensures Counts(candles + [c]) == Counts(candles) + c.count
  {
    assert (candles + [c])[..|candles|] == candles;
  }

  lemma UpdateTotals(candles: seq<Candle>, c: Candle)
    requires candles != []
    ensures var n := |candles| - 1;
      && Volumes(candles[n := c]) == Volumes(candles) - candles[n].volume + c.volume
      && Counts(candles[n := c]) == Counts(candles) - candles[n].count + c.count
  {
    var n := |candles| - 1;
    assert candles[n := c][..n] == candles[..n];
  }

  // ----- the builder -------------------------------------------------------

  /** How many trades the loop visits: up to and including index limit. */
  function Visited(trades: seq<Trade>, limit: Option<int>): (n: int)
    ensures 0 <= n <= |trades|
  {
    if limit.None? || limit.value >= |trades| - 1 then |trades|
    else if limit.value < 0 then 0
    else limit.value + 1
  }

  /** A limit is exceeded, by one trade, exactly when it is not negative and there are more trades than it says. */
  lemma LimitExceeded(trades: seq<Trade>, limit: int)
    ensures Visited(trades, Some(limit)) > Max(limit, 0) <==> 0 <= limit < |trades|
    ensures 0 <= limit < |trades| ==> Visited(trades, Some(limit)) == limit + 1
  {
  }

  /** Without a limit every trade is visited, and with one exactly those at indices up to it. */
  lemma VisitedAt(trades: seq<Trade>, limit: Option<int>, i: nat)
    requires i < |trades|
    ensures i < Visited(trades, limit) <==> limit.None? || i <= limit.value
  {
  }

  const TWO_TRADES := [Trade(0, 1.0, 1.0), Trade(1, 1.0, 1.0)]

  /** With a limit of one, the candle of two trades in one period counts both. */
  lemma LimitOneTakesTwo()
    ensures Visited(TWO_TRADES, Some(1)) == 2 && Accepted(TWO_TRADES[..Visited(TWO_TRADES, Some(1))], None) == TWO_TRADES
  {
    assert TWO_TRADES[..2] == TWO_TRADES && TWO_TRADES[..1][..0] == [];
    assert TWO_TRADES[..1] + [TWO_TRADES[1]] == TWO_TRADES;
  }

  lemma AcceptedOneMore(trades: seq<Trade>, i: nat, since: Option<int>)
    requires i < |trades|
    ensures Accepted(trades[..i + 1], since)
      == Accepted(trades[..i], since) + if IsLate(trades[i], since) then [trades[i]] else []
  {
    assert trades[..i + 1][..i] == trades[..i];
  }

  lemma {:induction false} AcceptedMembers(trades: seq<Trade>, since: Option<int>)
    ensures forall t :: t in Accepted(trades, since) <==>
      t in trades && (since.Some? ==> t.timestamp >= since.value)
  {
    if trades != [] {
      var rest, last := trades[..|trades| - 1], trades[|trades| - 1];
      assert rest + [last] == trades;
      AcceptedMembers(rest, since);
    }
  }

  lemma AcceptedMore(a: seq<Trade>, t: Trade, since: Option<int>)
    ensures Accepted(a + [t], since) ==
      Accepted(a, since) + if since.None? || t.timestamp >= since.value then [t] else []
    ensures Accepted([], since) == []
  {
    assert (a + [t])[..|a|] == a;
  }

  /** Trades are accepted one by one, in their places, by their timestamps. */
  lemma {:induction false} AcceptedParts(a: seq<Trade>, b: seq<Trade>, since: Option<int>)
    ensures Accepted(a + b, since) == Accepted(a, since) + Accepted(b, since)
  {
    hide Accepted;
    if b == [] {
      AcceptedMore(a, Trade(0, 0.0, 0.0), since);
      assert a + b == a;
    } else {
      var front, t := b[..|b| - 1], b[|b| - 1];
      AcceptedParts(a, front, since);
      AcceptedMore(a + front, t, since);
      AcceptedMore(front, t, since);
      assert a + b == a + front + [t] && b == front + [t];
    }
  }

  lemma {:induction false} AcceptedSorted(trades: seq<Trade>, since: Option<int>)
    requires IsSorted(trades)
    ensures IsSorted(Accepted(trades, since))
  {
    if trades != [] {
      var rest, last := trades[..|trades| - 1], trades[|trades| - 1];
      AcceptedSorted(rest, since);
      AcceptedMembers(rest, since);
      var kept := Accepted(rest, since);
      forall i | 0 <= i < |kept| ensures kept[i].timestamp <= last.timestamp {
        assert kept[i] in rest;
      }
    }
  }

  lemma SortedPrefix(trades: seq<Trade>, i: nat)
    requires i <= |trades| && IsSorted(trades)
    ensures IsSorted(trades[..i])
  {
  }

  lemma StrictTimesGrow(candles: seq<Candle>, ms: int, c: Candle)
    requires ms > 0 && StrictTimes(candles, ms) && IsMultiple(c.time, ms)
    requires candles == [] || c.time >= candles[|candles| - 1].time + ms
    ensures StrictTimes(candles + [c], ms)
  {
  }

  ghost predicate Built(candles: seq<Candle>, accepted: seq<Trade>, ms: int, sorted: bool)
    requires ms > 0
  {
    && StrictTimes(candles, ms)
    && Volumes(candles) == Amounts(accepted)
    && Counts(candles) == |accepted|
    && (accepted != [] ==> candles != [])
    && (sorted ==> GroupsOf(candles, accepted, ms))
  }

  // ----- the blocks of trades the candles stand for ------------------------

  ghost function Joined(blocks: seq<seq<Trade>>): seq<Trade> {
    if blocks == [] then [] else Joined(blocks[..|blocks| - 1]) + blocks[|blocks| - 1]
  }

  /** The candle stands for these trades: it opens in the period of the first, and none lies in a later period. */
  ghost predicate IsBlock(c: Candle, trades: seq<Trade>, ms: int)
    requires ms > 0
  {
    && Summarises(c, trades) && c.time == Opening(trades[0].timestamp, ms)
    && forall i :: 0 <= i < |trades| ==> Opening(trades[i].timestamp, ms) < c.time + ms
  }

  /** The trades, in their order, fall into blocks, one for each candle; a block ends where a later period begins. */
  ghost predicate IsSplit(candles: seq<Candle>, blocks: seq<seq<Trade>>, trades: seq<Trade>, ms: int)
    requires ms > 0
  {
    && |blocks| == |candles| && Joined(blocks) == trades
    && (forall j :: 0 <= j < |candles| ==> IsBlock(candles[j], blocks[j], ms))
    && forall j :: 0 < j < |candles| ==> candles[j].time >= candles[j - 1].time + ms
  }

  lemma PushSplits(candles: seq<Candle>, blocks: seq<seq<Trade>>, trades: seq<Trade>, t: Trade, ms: int)
    requires ms > 0 && IsSplit(candles, blocks, trades, ms)
    requires candles == [] || Opening(t.timestamp, ms) >= candles[|candles| - 1].time + ms
    ensures IsSplit(candles + [NewCandle(Opening(t.timestamp, ms), t)], blocks + [[t]], trades + [t], ms)
  {
    hide Opening, Summarises;
    var time := Opening(t.timestamp, ms);
    NewSummarises(time, t);
    assert (blocks + [[t]])[..|blocks|] == blocks;
    assert NewCandle(time, t).time == time && [t][0] == t;
  }

  lemma UpdateSplits(candles: seq<Candle>, blocks: seq<seq<Trade>>, trades: seq<Trade>, t: Trade, ms: int)
    requires ms > 0 && IsSplit(candles, blocks, trades, ms) && candles != []
    requires Opening(t.timestamp, ms) < candles[|candles| - 1].time + ms
    ensures var n := |candles| - 1;
      IsSplit(candles[n := Updated(candles[n], t)], blocks[n := blocks[n] + [t]], trades + [t], ms)
  {
    hide Opening;
    var n := |candles| - 1;
    assert IsBlock(candles[n], blocks[n], ms);
    UpdatedSummarises(candles[n], blocks[n], t);
    hide Summarises;
    assert Updated(candles[n], t).time == candles[n].time;
    var longer := blocks[n] + [t];
    assert longer[0] == blocks[n][0] && forall i :: 0 <= i < |blocks[n]| ==> longer[i] == blocks[n][i];
    assert blocks[n := longer][..n] == blocks[..n];
  }

  lemma NewCandleBuilt(candles: seq<Candle>, accepted: seq<Trade>, t: Trade, ms: int, sorted: bool)
    requires ms > 0 && Built(candles, accepted, ms, sorted) && (sorted ==> IsSorted(accepted + [t]))
    requires candles == [] || Opening(t.timestamp, ms) >= candles[|candles| - 1].time + ms
    ensures Built(candles + [NewCandle(Opening(t.timestamp, ms), t)], accepted + [t], ms, sorted)
  {
    hide StrictTimes, Opening, GroupsOf, IsSorted;
    var c := NewCandle(Opening(t.timestamp, ms), t);
    PushTotals(candles, c);
    AmountsOneMore(accepted, t);
    StrictTimesGrow(candles, ms, c);
    if sorted {
      NewCandleGroups(candles, accepted, t, ms);
    }
  }

  lemma UpdateBuilt(candles: seq<Candle>, accepted: seq<Trade>, t: Trade, ms: int, sorted: bool)
    requires ms > 0 && Built(candles, accepted, ms, sorted) && (sorted ==> IsSorted(accepted + [t]))
    requires candles != [] && Opening(t.timestamp, ms) < candles[|candles| - 1].time + ms
    ensures Built(candles[|candles| - 1 := Updated(candles[|candles| - 1], t)], accepted + [t], ms, sorted)
  {
    hide Opening, GroupsOf, IsSorted;
    UpdateTotals(candles, Updated(candles[|candles| - 1], t));
    AmountsOneMore(accepted, t);
    if sorted {
      UpdateGroups(candles, accepted, t, ms);
    }
  }

  /** The candles of the accepted trades. Totals and times hold for trades in any order. */
  method BuildOHLCVC(trades: seq<Trade>, ms: int, since: Option<int>, limit: Option<int>) returns (ohlcvs: seq<Candle>)
    requires ms > 0
    ensures var accepted := Accepted(trades[..Visited(trades, limit)], since);
      && StrictTimes(ohlcvs, ms)
      && Volumes(ohlcvs) == Amounts(accepted) && Counts(ohlcvs) == |accepted|
      && (IsSorted(trades) ==> GroupsOf(ohlcvs, accepted, ms))
      && exists blocks :: IsSplit(ohlcvs, blocks, accepted, ms)
  {
    hide Opening, GroupsOf, StrictTimes, IsSorted, NewCandle, Updated, Volumes, Counts, IsSplit;
    ohlcvs := [];
    ghost var blocks: seq<seq<Trade>> := [];
    assert IsSplit([], [], [], ms) by { NothingSplit(ms); }
    ghost var sorted := IsSorted(trades);
    assert Built(ohlcvs, [], ms, sorted) by { NothingBuilt(ms, sorted); }
    var n := Visited(trades, limit);
    assert Accepted(trades[..0], since) == [];
    for i := 0 to n
      invariant Built(ohlcvs, Accepted(trades[..i], since), ms, sorted)
      invariant |blocks| == |ohlcvs| && IsSplit(ohlcvs, blocks, Accepted(trades[..i], since), ms)
    {
      var trade := trades[i];
      ghost var before := Accepted(trades[..i], since);
      AcceptedOneMore(trades, i, since);
      if since.Some? && trade.timestamp < since.value {
        assert before + [] == before;
        continue;
      }
      if sorted {
        SortedPrefix(trades, i + 1);
        AcceptedSorted(trades[..i + 1], since);
      }
      var openingTime := Opening(trade.timestamp, ms);
      var candle := |ohlcvs| - 1;
      if candle == -1 || openingTime >= ohlcvs[candle].time + ms {
        NewCandleBuilt(ohlcvs, before, trade, ms, sorted);
        PushSplits(ohlcvs, blocks, before, trade, ms);
        blocks := blocks + [[trade]];
        ohlcvs := ohlcvs + [NewCandle(openingTime, trade)];
      } else {
        UpdateBuilt(ohlcvs, before, trade, ms, sorted);
        UpdateSplits(ohlcvs, blocks, before, trade, ms);
        blocks := blocks[candle := blocks[candle] + [trade]];
        ohlcvs := ohlcvs[candle := Updated(ohlcvs[candle], trade)];
      }
    }
  }

  lemma NothingSplit(ms: int)
    requires ms > 0
    ensures IsSplit([], [], [], ms)
  {
  }

  lemma NothingBuilt(ms: int, sorted: bool)
    requires ms > 0
    ensures Built([], [], ms, sorted)
  {
  }

  // ----- a grouping is unique ----------------------------------------------

  /** The trades have only one grouping, so any other builder gives the same candles. */
  lemma GroupingIsUnique(a: seq<Candle>, b: seq<Candle>, trades: seq<Trade>, ms: int)
    requires ms > 0 && GroupsOf(a, trades, ms) && GroupsOf(b, trades, ms)
    ensures a == b
  {
    hide Group, Summarises, Opening;
    TimesOfGrouping(a, trades, ms);
    TimesOfGrouping(b, trades, ms);
    SameTimes(a, b);
    forall j | 0 <= j < |a| ensures a[j] == b[j] {
      OneSummary(a[j], b[j], Group(trades, a[j].time, ms));
    }
  }

  lemma TimesOfGrouping(candles: seq<Candle>, trades: seq<Trade>, ms: int)
    requires ms > 0 && GroupsOf(candles, trades, ms)
    ensures forall time :: HasCandle(candles, time) <==> Group(trades, time, ms) != []
  {
    hide Opening;
    forall time ensures HasCandle(candles, time) <==> Group(trades, time, ms) != [] {
      GroupMembers(trades, time, ms);
      if Group(trades, time, ms) != [] {
        var i :| 0 <= i < |trades| && trades[i] == Group(trades, time, ms)[0];
      }
    }
  }

  ghost predicate Increasing(candles: seq<Candle>) {
    forall i, j :: 0 <= i < j < |candles| ==> candles[i].time < candles[j].time
  }

  lemma {:induction false} SameTimes(a: seq<Candle>, b: seq<Candle>)
    requires Increasing(a) && Increasing(b)
    requires forall time :: HasCandle(a, time) <==> HasCandle(b, time)
    ensures |a| == |b| && forall j :: 0 <= j < |a| ==> a[j].time == b[j].time
  {
    if a == [] || b == [] {
      if a != [] {
        assert HasCandle(a, a[0].time);
      }
      if b != [] {
        assert HasCandle(b, b[0].time);
      }
    } else {
      var n, m := |a| - 1, |b| - 1;
      assert HasCandle(a, a[n].time) && HasCandle(b, b[m].time);
      assert HasCandle(a, b[m].time) && HasCandle(b, a[n].time);
      assert a[n].time == b[m].time;
      forall time ensures HasCandle(a[..n], time) <==> HasCandle(b[..m], time) {
        ShorterHasCandle(a, time);
        ShorterHasCandle(b, time);
      }
      SameTimes(a[..n], b[..m]);
    }
  }

  lemma ShorterHasCandle(a: seq<Candle>, time: int)
    requires a != [] && Increasing(a)
    ensures HasCandle(a[..|a| - 1], time) <==> HasCandle(a, time) && time != a[|a| - 1].time
  {
    var rest := a[..|a| - 1];
    if HasCandle(a, time) && time != a[|a| - 1].time {
      var j :| 0 <= j < |a| && a[j].time == time;
      assert rest[j] == a[j];
    }
  }

  lemma OneSummary(c: Candle, d: Candle, trades: seq<Trade>)
    requires c.time == d.time && Summarises(c, trades) && Summarises(d, trades)
    ensures c == d
  {
  }
}
