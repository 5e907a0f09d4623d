/** A two-sided order book, its snapshots, and the exchange messages that drive it. */
module OrderBooks {
  import opened Basics
  import opened SortedIndex
  import opened OrderBookSides

  datatype Snapshot = Snapshot(asks: seq<Level>, bids: seq<Level>, nonce: Option<int>, timestamp: Option<int>,
                               datetime: Option<string>, symbol: Option<string>)

  /** The ISO 8601 text of a timestamp; it is undefined for some, in any case for an undefined one. */
  type IsoText = Option<int> -> Option<string>

  /** Finite prices, as the float index needs them. */
  ghost predicate HasPrices(levels: seq<Level>) {
    forall d :: d in levels ==> -MAX_VALUE < d.price < MAX_VALUE
  }

  ghost predicate IsSnapshot(s: Snapshot) {
    HasPrices(s.asks) && HasPrices(s.bids)
  }

  class OrderBook {
    const asks: OrderBookSide
    const bids: OrderBookSide
    const iso8601: IsoText
    var nonce: Option<int>
    var timestamp: Option<int>
    var datetime: Option<string>
    var symbol: Option<string>

    ghost predicate Valid()
      reads this, asks, bids, asks.index, bids.index
    {
      && asks != bids && asks.index != bids.index
      && !asks.side && bids.side && asks.counted == bids.counted
      && asks.Valid() && bids.Valid()
    }

    ghost function Footprint(): set<object>
      reads this, asks, bids
    {
      {this, asks, bids, asks.index, bids.index}
    }

    constructor (snapshot: Snapshot, counted: bool, depth: nat, iso8601: IsoText)
      requires IsSnapshot(snapshot)
      ensures Valid() && fresh(Footprint())
      ensures asks.counted == counted
      ensures asks.Contents() == AppliedAll(counted, map[], snapshot.asks)
      ensures bids.Contents() == AppliedAll(counted, map[], snapshot.bids)
      ensures nonce == snapshot.nonce && timestamp == snapshot.timestamp && symbol == snapshot.symbol
      ensures this.iso8601 == iso8601
      // a missing or zero timestamp leaves the snapshot's own date
      ensures datetime == if snapshot.timestamp in {None, Some(0)} then snapshot.datetime else iso8601(snapshot.timestamp)
      ensures asks.depth == bids.depth == if depth == 0 then MAX_SAFE_INTEGER else depth
    {
      asks := new OrderBookSide(false, counted, snapshot.asks, depth);
      bids := new OrderBookSide(true, counted, snapshot.bids, depth);
      this.iso8601 := iso8601;
      nonce, timestamp, symbol := snapshot.nonce, snapshot.timestamp, snapshot.symbol;
      datetime := if snapshot.timestamp in {None, Some(0)} then snapshot.datetime else iso8601(snapshot.timestamp);
    }

    /** Empties both sides and stores the snapshot: nothing of the earlier state is left. */
    method Reset(snapshot: Snapshot)
      requires Valid() && IsSnapshot(snapshot)
      modifies Footprint()
      ensures Valid() && fresh(Footprint() - old(Footprint()))
      ensures asks.Contents() == AppliedAll(asks.counted, map[], snapshot.asks)
      ensures bids.Contents() == AppliedAll(bids.counted, map[], snapshot.bids)
      ensures nonce == snapshot.nonce && timestamp == snapshot.timestamp && symbol == snapshot.symbol
      ensures datetime == iso8601(snapshot.timestamp)
    {
      asks.Clear();
      asks.StoreAll(snapshot.asks);
      bids.Clear();
      bids.StoreAll(snapshot.bids);
      nonce, timestamp, symbol := snapshot.nonce, snapshot.timestamp, snapshot.symbol;
      datetime := iso8601(timestamp);
    }

    /** A snapshot that is not newer, by nonce, changes nothing. */
    method Update(snapshot: Snapshot)
      requires Valid() && IsSnapshot(snapshot)
      modifies Footprint()
      ensures Valid() && fresh(Footprint() - old(Footprint()))
      ensures var stale := snapshot.nonce.Some? && old(nonce).Some? && snapshot.nonce.value <= old(nonce).value;
        if stale then
          && asks.levels == old(asks.levels) && bids.levels == old(bids.levels)
          && nonce == old(nonce) && timestamp == old(timestamp) && symbol == old(symbol)
          && datetime == old(datetime)
        else
          && asks.Contents() == AppliedAll(asks.counted, map[], snapshot.asks)
          && bids.Contents() == AppliedAll(bids.counted, map[], snapshot.bids)
          && nonce == snapshot.nonce && timestamp == snapshot.timestamp && symbol == snapshot.symbol
          && datetime == iso8601(snapshot.timestamp)
    {
      if snapshot.nonce.Some? && nonce.Some? && snapshot.nonce.value <= nonce.value {
        return;
      }
      nonce := snapshot.nonce;
      timestamp := snapshot.timestamp;
      datetime := iso8601(timestamp);
      Reset(snapshot);
    }

    /** Cuts both sides off at their depths. */
    method Limit()
      requires Valid()
      modifies Footprint()
      ensures Valid() && Footprint() == old(Footprint())
      ensures asks.levels == old(asks.levels)[..if |old(asks.levels)| > asks.depth then asks.depth else |old(asks.levels)|]
      ensures bids.levels == old(bids.levels)[..if |old(bids.levels)| > bids.depth then bids.depth else |old(bids.levels)|]
      ensures IsBestOf(false, asks.Contents(), old(asks.Contents()))
      ensures IsBestOf(true, bids.Contents(), old(bids.Contents()))
    {
      asks.Limit();
      bids.Limit();
    }
  }

  /** Two sides that stand for the same map hold the same levels, whatever happened to them before. */
  lemma SameContentsSameLevels(a: OrderBookSide, b: OrderBookSide)
    requires a.Valid() && b.Valid() && a.side == b.side && a.Contents() == b.Contents()
    ensures a.levels == b.levels
  {
    SortedListIsUnique(a.side, a.levels, b.levels);
  }

  // ----- exchange messages -------------------------------------------------

  /** An order book message: a partial replaces the book, an update changes it. */
  datatype Message = Message(partial: bool, asks: seq<Level>, bids: seq<Level>, time: Option<int>)

  ghost predicate IsMessage(m: Message) {
    HasPrices(m.asks) && HasPrices(m.bids)
  }

  function Sided(asks: bool, m: Message): seq<Level> {
    if asks then m.asks else m.bids
  }

  /** All deltas of one side since the last partial. */
  function SinceLastPartial(asks: bool, messages: seq<Message>): seq<Level> {
    if messages == [] then []
    else
      var m := messages[|messages| - 1];
      if m.partial then Sided(asks, m) else SinceLastPartial(asks, messages[..|messages| - 1]) + Sided(asks, m)
  }

  lemma {:induction false} AppliedAllConcat(counted: bool, m: map<real, Amount>, a: seq<Level>, b: seq<Level>)
    ensures AppliedAll(counted, m, a + b) == AppliedAll(counted, AppliedAll(counted, m, a), b)
  {
    if b == [] {
      assert a + b == a;
    } else {
      AppliedAllConcat(counted, m, a, b[..|b| - 1]);
      assert (a + b)[..|a + b| - 1] == a + b[..|b| - 1];
    }
  }

  class FtxBooks {
    const iso8601: IsoText
    var orderbooks: map<string, OrderBook>

    constructor (iso8601: IsoText)
      ensures orderbooks == map[] && this.iso8601 == iso8601
    {
      this.iso8601 := iso8601;
      orderbooks := map[];
    }

    ghost function Footprint(symbol: string): set<object>
      reads this, if symbol in orderbooks then {orderbooks[symbol], orderbooks[symbol].asks, orderbooks[symbol].bids} else {}
    {
      {this} + if symbol in orderbooks then orderbooks[symbol].Footprint() else {}
    }

    /** The book of a symbol, if there is one, is a valid basic book that does not contain this table. */
    ghost predicate Valid(symbol: string)
      reads this
      reads if symbol in orderbooks then {orderbooks[symbol], orderbooks[symbol].asks, orderbooks[symbol].bids} else {}
      reads if symbol in orderbooks then {orderbooks[symbol].asks.index, orderbooks[symbol].bids.index} else {}
    {
      symbol in orderbooks ==> orderbooks[symbol].Valid() && !orderbooks[symbol].asks.counted
    }

    method HandleOrderBookUpdate(symbol: string, message: Message)
      requires Valid(symbol) && IsMessage(message) && symbol in orderbooks
      modifies Footprint(symbol)
      ensures Valid(symbol) && fresh(Footprint(symbol) - old(Footprint(symbol)))
      ensures orderbooks == old(orderbooks)
      ensures var book := orderbooks[symbol];
        && book.asks.Contents() == AppliedAll(false, old(book.asks.Contents()), message.asks)
        && book.bids.Contents() == AppliedAll(false, old(book.bids.Contents()), message.bids)
        && book.timestamp == message.time && book.datetime == iso8601(message.time)
        && book.nonce == old(book.nonce) && book.symbol == old(book.symbol)
    {
      var orderbook := orderbooks[symbol];
      orderbook.asks.StoreAll(message.asks);
      orderbook.bids.StoreAll(message.bids);
      orderbook.timestamp := message.time;
      orderbook.datetime := iso8601(message.time);
      orderbooks := orderbooks[symbol := orderbook];
    }

    method HandleOrderBookSnapshot(symbol: string, message: Message)
      requires Valid(symbol) && IsMessage(message)
      modifies Footprint(symbol)
      ensures symbol in orderbooks && Valid(symbol) && fresh(Footprint(symbol) - old(Footprint(symbol)))
      ensures var book := orderbooks[symbol];
        && orderbooks == old(orderbooks)[symbol := book]
        && book.asks.Contents() == AppliedAll(false, map[], message.asks)
        && book.bids.Contents() == AppliedAll(false, map[], message.bids)
        && book.timestamp == message.time && book.datetime == iso8601(message.time)
        && book.nonce == None && book.symbol == None
        && (symbol in old(orderbooks) ==> book == old(orderbooks)[symbol])
        && (symbol !in old(orderbooks) ==> fresh(book) && book.asks.depth == book.bids.depth == 100)
    {
      hide MapOf, SortedLevels, IsIndex;
      NothingApplied();
      hide AppliedAll;
      var nothing := Snapshot([], [], None, None, None, None);
      if symbol !in orderbooks {
        var book := new OrderBook(nothing, false, 100, iso8601);
        orderbooks := orderbooks[symbol := book];
      } else {
        orderbooks[symbol].Reset(nothing);
      }
      HandleOrderBookUpdate(symbol, message);
    }

    /** Do the two sides hold the levels that survive this run of messages? */
    ghost predicate InRun(symbol: string, messages: seq<Message>)
      reads this
      reads if symbol in orderbooks then {orderbooks[symbol], orderbooks[symbol].asks, orderbooks[symbol].bids} else {}
    {
      && symbol in orderbooks
      && orderbooks[symbol].asks.Contents() == AppliedAll(false, map[], SinceLastPartial(true, messages))
      && orderbooks[symbol].bids.Contents() == AppliedAll(false, map[], SinceLastPartial(false, messages))
    }

    /** handleMessage, behind a run of earlier messages: a partial starts the book anew, an update continues it. */
    method HandleMessage(symbol: string, message: Message, ghost before: seq<Message>)
      requires Valid(symbol) && IsMessage(message) && (message.partial || InRun(symbol, before))
      modifies Footprint(symbol)
      ensures Valid(symbol) && InRun(symbol, before + [message])
      ensures fresh(Footprint(symbol) - old(Footprint(symbol)))
    {
      hide AppliedAll, SinceLastPartial, MapOf, SortedLevels, IsIndex;
      RunStep(true, before, message);
      RunStep(false, before, message);
      if message.partial {
        HandleOrderBookSnapshot(symbol, message);
      } else {
        HandleOrderBookUpdate(symbol, message);
      }
    }

    /** Over any run that starts with a partial, only what came since the last partial counts. */
    method HandleMessages(symbol: string, messages: seq<Message>)
      requires Valid(symbol) && messages != [] && messages[0].partial
      requires forall i :: 0 <= i < |messages| ==> IsMessage(messages[i])
      modifies Footprint(symbol)
      ensures Valid(symbol) && InRun(symbol, messages) && fresh(Footprint(symbol) - old(Footprint(symbol)))
    {
      hide AppliedAll, SinceLastPartial, MapOf, SortedLevels, IsIndex, InRun, Valid, IsMessage;
      var before, last := messages[..|messages| - 1], messages[|messages| - 1];
      assert messages == before + [last];
      if before != [] {
        HandleMessages(symbol, before);
      }
      HandleMessage(symbol, last, before);
    }
  }

  lemma NothingApplied()
    ensures AppliedAll(false, map[], []) == map[]
  {
  }

  lemma RunStep(asks: bool, messages: seq<Message>, m: Message)
    ensures AppliedAll(false, map[], SinceLastPartial(asks, messages + [m]))
         == AppliedAll(false, if m.partial then map[] else AppliedAll(false, map[], SinceLastPartial(asks, messages)),
                       Sided(asks, m))
  {
    assert (messages + [m])[..|messages|] == messages;
    AppliedAllConcat(false, map[], SinceLastPartial(asks, messages), Sided(asks, m));
  }
}
