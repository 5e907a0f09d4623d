/** Publishing order books as snapshots and deltas, and replaying them: gatherer, log and replica. */
module Replication {
  import opened Basics
  import opened SortedIndex

  datatype Quote = Quote(price: real, size: real)

  datatype Meta = Meta(timestamp: Option<int>, nonce: Option<int>, datetime: Option<string>)

  datatype Book = Book(asks: seq<Quote>, bids: seq<Quote>, meta: Meta)

  datatype Diff = Diff(add: seq<Quote>, remove: seq<Quote>)

  datatype Message = Snapshot(book: Book) | Deltas(asks: Diff, bids: Diff, meta: Meta)

  // ----- diff and patch ----------------------------------------------------

  /** The elements of a that are not in b, in their order. */
  function Minus(a: seq<Quote>, b: seq<Quote>): (r: seq<Quote>)
    ensures forall x :: x in r <==> x in a && x !in b
  {
    if a == [] then []
    else Minus(a[..|a| - 1], b) + if a[|a| - 1] in b then [] else [a[|a| - 1]]
  }

  lemma MinusMore(a: seq<Quote>, x: Quote, c: seq<Quote>)
    ensures Minus(a + [x], c) == Minus(a, c) + if x in c then [] else [x]
    ensures Minus([], c) == []
  {
    assert (a + [x])[..|a|] == a;
  }

  /** The diff takes every element by itself and keeps their order. */
  lemma {:induction false} MinusOfParts(a: seq<Quote>, b: seq<Quote>, c: seq<Quote>)
    ensures Minus(a + b, c) == Minus(a, c) + Minus(b, c)
  {
    hide Minus;
    if b == [] {
      MinusMore(a, Quote(0.0, 0.0), c);
      assert a + b == a;
    } else {
      var front, x := b[..|b| - 1], b[|b| - 1];
      MinusOfParts(a, front, c);
      MinusMore(a + front, x, c);
      MinusMore(front, x, c);
      assert a + b == a + front + [x] && b == front + [x];
    }
  }

  method GetArrayDiff(first: seq<Quote>, second: seq<Quote>) returns (add: seq<Quote>, remove: seq<Quote>)
    ensures add == Minus(second, first) && remove == Minus(first, second)
  {
    add, remove := [], [];
    var map1 := LookupOf(first);
    var map2 := LookupOf(second);
    for i := 0 to |second|
      invariant add == Minus(second[..i], first)
    {
      assert second[..i + 1][..i] == second[..i];
      if second[i] !in map1 {
        add := add + [second[i]];
      }
    }
    for i := 0 to |first|
      invariant remove == Minus(first[..i], second)
    {
      assert first[..i + 1][..i] == first[..i];
      if first[i] !in map2 {
        remove := remove + [first[i]];
      }
    }
    assert first[..|first|] == first && second[..|second|] == second;
  }

  /** _.reduce into a lookup table. */
  method LookupOf(items: seq<Quote>) returns (lookup: set<Quote>)
    ensures forall x :: x in lookup <==> x in items
  {
    lookup := {};
    for i := 0 to |items|
      invariant forall x :: x in lookup <==> x in items[..i]
    {
      lookup := lookup + {items[i]};
    }
  }

  function Place(side: bool, x: Quote, sorted: seq<Quote>): seq<Quote> {
    if sorted == [] || KeyOf(side, sorted[|sorted| - 1].price) <= KeyOf(side, x.price) then sorted + [x]
    else Place(side, x, sorted[..|sorted| - 1]) + [sorted[|sorted| - 1]]
  }

  /** _.sortBy on the price, ascending for asks and descending for bids: a stable sort. */
  function SortBy(side: bool, s: seq<Quote>): seq<Quote> {
    if s == [] then [] else Place(side, s[|s| - 1], SortBy(side, s[..|s| - 1]))
  }

  /** pullAllWith the removed quotes, concat the added ones, sort. */
  function Patched(side: bool, prior: seq<Quote>, d: Diff): seq<Quote> {
    SortBy(side, Minus(prior, d.remove) + d.add)
  }

  ghost predicate Ordered(side: bool, s: seq<Quote>) {
    forall i, j :: 0 <= i < j < |s| ==> KeyOf(side, s[i].price) <= KeyOf(side, s[j].price)
  }

  /** Sorted by price, every price once. */
  ghost predicate IsSide(side: bool, s: seq<Quote>) {
    forall i, j :: 0 <= i < j < |s| ==> KeyOf(side, s[i].price) < KeyOf(side, s[j].price)
  }

  ghost predicate IsBook(b: Book) {
    IsSide(false, b.asks) && IsSide(true, b.bids)
  }

  lemma {:induction false} PlaceKeeps(side: bool, x: Quote, sorted: seq<Quote>)
    ensures multiset(Place(side, x, sorted)) == multiset(sorted) + multiset{x}
    ensures forall y :: y in Place(side, x, sorted) ==> y == x || y in sorted
  {
    if !(sorted == [] || KeyOf(side, sorted[|sorted| - 1].price) <= KeyOf(side, x.price)) {
      var front, last := sorted[..|sorted| - 1], sorted[|sorted| - 1];
      hide KeyOf;
      PlaceKeeps(side, x, front);
      assert sorted == front + [last];
    }
  }

  lemma OrderedPush(side: bool, s: seq<Quote>, x: Quote)
    requires Ordered(side, s) && forall y :: y in s ==> KeyOf(side, y.price) <= KeyOf(side, x.price)
    ensures Ordered(side, s + [x])
  {
    hide KeyOf;
    forall i, j | 0 <= i < j < |s + [x]|
      ensures KeyOf(side, (s + [x])[i].price) <= KeyOf(side, (s + [x])[j].price)
    {
      assert (s + [x])[i] == s[i] && s[i] in s;
    }
  }

  lemma UpToLast(side: bool, s: seq<Quote>, n: nat)
    requires Ordered(side, s) && s != [] && n <= |s|
    ensures forall y :: y in s[..n] ==> KeyOf(side, y.price) <= KeyOf(side, s[|s| - 1].price)
    ensures Ordered(side, s[..n])
  {
    hide KeyOf;
    forall y | y in s[..n] ensures KeyOf(side, y.price) <= KeyOf(side, s[|s| - 1].price) {
      var i :| 0 <= i < n && s[i] == y;
      assert i < |s| - 1 || s[i] == s[|s| - 1];
    }
  }

  lemma {:induction false} PlaceIsOrdered(side: bool, x: Quote, sorted: seq<Quote>)
    requires Ordered(side, sorted)
    ensures Ordered(side, Place(side, x, sorted))
  {
    if sorted != [] {
      var front, last := sorted[..|sorted| - 1], sorted[|sorted| - 1];
      UpToLast(side, sorted, |sorted| - 1);
      UpToLast(side, sorted, |sorted|);
      assert sorted[..|sorted|] == sorted;
      hide Ordered, KeyOf;
      if KeyOf(side, last.price) <= KeyOf(side, x.price) {
        OrderedPush(side, sorted, x);
      } else {
        PlaceIsOrdered(side, x, front);
        PlaceKeeps(side, x, front);
        OrderedPush(side, Place(side, x, front), last);
      }
    }
  }

  lemma {:induction false} SortByIsOrdered(side: bool, s: seq<Quote>)
    ensures Ordered(side, SortBy(side, s)) && multiset(SortBy(side, s)) == multiset(s)
  {
    if s != [] {
      var front, last := s[..|s| - 1], s[|s| - 1];
      hide Place, Ordered;
      SortByIsOrdered(side, front);
      PlaceIsOrdered(side, last, SortBy(side, front));
      PlaceKeeps(side, last, SortBy(side, front));
      assert s == front + [last];
    }
  }

  /** The quotes at a price. */
  function AtPrice(s: seq<Quote>, price: real): seq<Quote> {
    if s == [] then []
    else AtPrice(s[..|s| - 1], price) + if s[|s| - 1].price == price then [s[|s| - 1]] else []
  }

  lemma AtPriceMore(s: seq<Quote>, x: Quote, price: real)
    ensures AtPrice(s + [x], price) == AtPrice(s, price) + if x.price == price then [x] else []
  {
    assert (s + [x])[..|s|] == s;
  }

  lemma {:induction false} PlaceIsStable(side: bool, x: Quote, sorted: seq<Quote>, price: real)
    ensures AtPrice(Place(side, x, sorted), price) == AtPrice(sorted, price) + if x.price == price then [x] else []
  {
    hide AtPrice;
    if sorted == [] || KeyOf(side, sorted[|sorted| - 1].price) <= KeyOf(side, x.price) {
      AtPriceMore(sorted, x, price);
    } else {
      var front, last := sorted[..|sorted| - 1], sorted[|sorted| - 1];
      assert last.price != x.price;
      hide KeyOf;
      PlaceIsStable(side, x, front, price);
      AtPriceMore(Place(side, x, front), last, price);
      AtPriceMore(front, last, price);
      assert sorted == front + [last];
    }
  }

  /** Sorting keeps quotes at one price in their order. */
  lemma {:induction false} SortByIsStable(side: bool, s: seq<Quote>, price: real)
    ensures AtPrice(SortBy(side, s), price) == AtPrice(s, price)
  {
    if s != [] {
      var front, last := s[..|s| - 1], s[|s| - 1];
      SortByIsStable(side, front, price);
      hide Place, AtPrice;
      PlaceIsStable(side, last, SortBy(side, front), price);
      AtPriceMore(front, last, price);
      assert s == front + [last];
    }
  }

  lemma LastIsLast(side: bool, s: seq<Quote>, t: seq<Quote>)
    requires Ordered(side, s) && IsSide(side, t) && multiset(s) == multiset(t) && s != [] && t != []
    ensures s[|s| - 1] == t[|t| - 1]
  {
    var x, y := s[|s| - 1], t[|t| - 1];
    assert x in multiset(t) && y in multiset(s);
    var i :| 0 <= i < |t| && t[i] == x;
    var j :| 0 <= j < |s| && s[j] == y;
    assert KeyOf(side, y.price) <= KeyOf(side, x.price);
  }

  lemma WithoutLast(s: seq<Quote>)
    requires s != []
    ensures multiset(s[..|s| - 1]) == multiset(s) - multiset{s[|s| - 1]}
  {
    assert s == s[..|s| - 1] + [s[|s| - 1]];
  }

  /** A side is the only ordered arrangement of its quotes. */
  lemma {:induction false} OrderedIsUnique(side: bool, s: seq<Quote>, t: seq<Quote>)
    requires Ordered(side, s) && IsSide(side, t) && multiset(s) == multiset(t)
    ensures s == t
  {
    hide Ordered, IsSide;
    SameLength(s, t);
    if s != [] {
      LastIsLast(side, s, t);
      WithoutLast(s);
      WithoutLast(t);
      PrefixOfSide(side, s, t);
      OrderedIsUnique(side, s[..|s| - 1], t[..|t| - 1]);
      assert s == s[..|s| - 1] + [s[|s| - 1]] && t == t[..|t| - 1] + [t[|t| - 1]];
    }
  }

  lemma SameLength(s: seq<Quote>, t: seq<Quote>)
    requires multiset(s) == multiset(t)
    ensures |s| == |t|
  {
    assert |s| == |multiset(s)| == |multiset(t)| == |t|;
  }

  lemma PrefixOfSide(side: bool, s: seq<Quote>, t: seq<Quote>)
    requires Ordered(side, s) && IsSide(side, t) && s != [] && t != []
    ensures Ordered(side, s[..|s| - 1]) && IsSide(side, t[..|t| - 1])
  {
    hide KeyOf;
  }

  lemma {:induction false} MinusCounts(a: seq<Quote>, b: seq<Quote>, x: Quote)
    ensures multiset(Minus(a, b))[x] == if x in b then 0 else multiset(a)[x]
  {
    if a != [] {
      var front, last := a[..|a| - 1], a[|a| - 1];
      MinusCounts(front, b, x);
      assert a == front + [last];
      assert multiset(a)[x] == multiset(front)[x] + multiset{last}[x];
      assert Minus(a, b) == Minus(front, b) + if last in b then [] else [last];
    }
  }

  lemma SideCounts(side: bool, s: seq<Quote>, x: Quote)
    requires IsSide(side, s)
    ensures multiset(s)[x] == if x in s then 1 else 0
  {
    if x in s {
      var i :| 0 <= i < |s| && s[i] == x;
      assert s == s[..i] + [x] + s[i + 1..];
      assert x !in s[..i] && x !in s[i + 1..];
    }
  }

  /** Applying the diff of two sides to the first gives exactly the second. */
  lemma PatchRestores(side: bool, prior: seq<Quote>, next: seq<Quote>)
    requires IsSide(side, prior) && IsSide(side, next)
    ensures Patched(side, prior, Diff(Minus(next, prior), Minus(prior, next))) == next
  {
    var kept, added := Minus(prior, Minus(prior, next)), Minus(next, prior);
    forall x ensures multiset(kept + added)[x] == multiset(next)[x] {
      MinusCounts(prior, Minus(prior, next), x);
      MinusCounts(next, prior, x);
      SideCounts(side, prior, x);
      SideCounts(side, next, x);
    }
    SortByIsOrdered(side, kept + added);
    OrderedIsUnique(side, SortBy(side, kept + added), next);
  }

  /** The diff never adds what it removes, and is empty exactly when the sides are equal. */
  lemma DiffIsMinimal(side: bool, prior: seq<Quote>, next: seq<Quote>)
    requires IsSide(side, prior) && IsSide(side, next)
    ensures forall x :: !(x in Minus(next, prior) && x in Minus(prior, next))
    ensures Minus(next, prior) == [] && Minus(prior, next) == [] <==> prior == next
  {
    if Minus(next, prior) == [] && Minus(prior, next) == [] {
      PatchRestores(side, prior, next);
      PatchRestores(side, prior, prior);
      NothingMinus(prior);
    }
    if prior == next {
      NothingMinus(prior);
    }
  }

  lemma NothingMinus(a: seq<Quote>)
    ensures Minus(a, a) == []
  {
    if Minus(a, a) != [] {
      assert Minus(a, a)[0] in Minus(a, a);
    }
  }

  // ----- the gatherer ------------------------------------------------------

  const ORDER_BOOK_SNAPSHOT_FREQ_MS := 60000

  /** What the subscriber remembers: the last book it saw, and when it last sent a snapshot. */
  datatype Gathered = Gathered(last: Option<Book>, time: int)

  /** A book observed at a time, by the clock that decides about snapshots and, read again, by the one that stamps. */
  datatype Observation = Observation(book: Book, now: int, local: int)

  /** A book without timestamp is stamped with the local time. */
  function Stamped(meta: Meta, local: int): Meta {
    if meta.timestamp == None then meta.(timestamp := Some(local)) else meta
  }

  function DiffOf(prior: seq<Quote>, next: seq<Quote>): Diff {
    Diff(Minus(next, prior), Minus(prior, next))
  }

  predicate IsEmpty(d: Diff) {
    d.add == [] && d.remove == []
  }

  predicate SnapshotDue(g: Gathered, o: Observation) {
    g.last.None? || o.now - g.time > ORDER_BOOK_SNAPSHOT_FREQ_MS
  }

  /** What one observation publishes: a snapshot, the deltas, or nothing when the sides are unchanged. */
  function Published(g: Gathered, o: Observation): seq<Message> {
    if SnapshotDue(g, o) then [Snapshot(o.book.(meta := Stamped(o.book.meta, o.local)))]
    else
      var asks, bids := DiffOf(g.last.value.asks, o.book.asks), DiffOf(g.last.value.bids, o.book.bids);
      if IsEmpty(asks) && IsEmpty(bids) then [] else [Deltas(asks, bids, Stamped(o.book.meta, o.local))]
  }

  function Observed(g: Gathered, o: Observation): Gathered {
    Gathered(Some(o.book), if SnapshotDue(g, o) then o.now else g.time)
  }

  class Gatherer {
    var orderBookClone: Option<Book>
    var time: int
    /** The stream, in publication order. */
    var log: seq<Message>

    ghost function View(): Gathered
      reads this
    {
      Gathered(orderBookClone, time)
    }

    constructor (now: int)
      ensures View() == Gathered(None, now) && log == []
    {
      orderBookClone, time, log := None, now, [];
    }

    method OnOrderBook(data: Book, now: int, local: int)
      modifies this
      ensures View() == Observed(old(View()), Observation(data, now, local))
      ensures log == old(log) + Published(old(View()), Observation(data, now, local))
      ensures orderBookClone == Some(data)
      ensures
        var meta := Meta(if data.meta.timestamp.Some? then data.meta.timestamp else Some(local),
                         data.meta.nonce, data.meta.datetime);
        if old(orderBookClone).None? || now - old(time) > 60000 then
          time == now && log == old(log) + [Snapshot(Book(data.asks, data.bids, meta))]
        else
          var prior := old(orderBookClone).value;
          var asks := Diff(Minus(data.asks, prior.asks), Minus(prior.asks, data.asks));
          var bids := Diff(Minus(data.bids, prior.bids), Minus(prior.bids, data.bids));
          time == old(time) && log == old(log) +
            if asks.add + asks.remove + bids.add + bids.remove == [] then [] else [Deltas(asks, bids, meta)]
    {
      var meta := Stamped(data.meta, local);
      if orderBookClone.None? || now - time > ORDER_BOOK_SNAPSHOT_FREQ_MS {
        time := now;
        log := log + [Snapshot(data.(meta := meta))];
      } else {
        var asksAdd, asksRemove := GetArrayDiff(orderBookClone.value.asks, data.asks);
        var bidsAdd, bidsRemove := GetArrayDiff(orderBookClone.value.bids, data.bids);
        if |asksRemove| + |asksAdd| + |bidsRemove| + |bidsAdd| != 0 {
          log := log + [Deltas(Diff(asksAdd, asksRemove), Diff(bidsAdd, bidsRemove), meta)];
        }
      }
      orderBookClone := Some(data);
    }
  }

  // ----- the replica -------------------------------------------------------

  /** pushToObservable: the newest version in front, cut off at the cache size. */
  function Pushed<T>(cacheSize: nat, slots: seq<T>, data: T): (r: seq<T>)
    ensures |r| == Min(cacheSize, |slots| + 1)
    ensures forall i :: 0 <= i < |r| ==> r[i] == if i == 0 then data else slots[i - 1]
  {
    var all := [data] + slots;
    if |all| > cacheSize then all[..cacheSize] else all
  }

  function PatchedBook(book: Book, m: Message): Book
    requires m.Deltas?
  {
    Book(Patched(false, book.asks, m.asks), Patched(true, book.bids, m.bids), m.meta)
  }

  /** One message at the replica. Deltas change the newest cached book itself before a copy of it is pushed. */
  function Handled(cacheSize: nat, slots: seq<Book>, m: Message): seq<Book> {
    match m
    case Snapshot(book) => Pushed(cacheSize, slots, book)
    case Deltas(_, _, _) =>
      if slots == [] then slots
      else
        var patched := PatchedBook(slots[0], m);
        Pushed(cacheSize, slots[0 := patched], patched)
  }

  /** A side behind a diff: what is removed is gone, every other quote is as often as before, and what is added is
      added; sorted by price. */
  lemma PatchedSide(side: bool, prior: seq<Quote>, d: Diff, x: Quote)
    ensures var r := Patched(side, prior, d);
      && multiset(r)[x] == (if x in d.remove then 0 else multiset(prior)[x]) + multiset(d.add)[x]
      && forall i, j :: 0 <= i < j < |r| ==> if side then r[i].price >= r[j].price else r[i].price <= r[j].price
  {
    var kept := Minus(prior, d.remove);
    SortByIsOrdered(side, kept + d.add);
    MinusCounts(prior, d.remove, x);
    assert multiset(kept + d.add)[x] == multiset(kept)[x] + multiset(d.add)[x];
  }

  /** What a message leaves: a snapshot in front of the versions; or the newest version changed by deltas, twice. */
  lemma HandledVersions(cacheSize: nat, slots: seq<Book>, m: Message)
    requires cacheSize > 0
    ensures var r := Handled(cacheSize, slots, m);
      && (m.Deltas? && slots == [] ==> r == [])
      && (m.Snapshot? || slots != [] ==>
        && |r| == Min(cacheSize, |slots| + 1)
        && (forall i :: (if m.Snapshot? then 0 else 1) < i < |r| ==> r[i] == slots[i - 1])
        && (if m.Snapshot? then r[0] == m.book
            else
              && r[0] == Book(Patched(false, slots[0].asks, m.asks), Patched(true, slots[0].bids, m.bids), m.meta)
              && (|r| > 1 ==> r[1] == r[0])))
  {
    hide Patched;
  }

  class Replica {
    const cacheSize: nat
    var cache: map<string, seq<Book>>

    constructor (cacheSize: nat)
      ensures this.cacheSize == cacheSize && cache == map[]
    {
      this.cacheSize := cacheSize;
      cache := map[];
    }

    ghost function Slots(key: string): seq<Book>
      reads this
    {
      if key in cache then cache[key] else []
    }

    method PushToObservable(key: string, data: Book)
      modifies this
      ensures cache == old(cache)[key := Pushed(cacheSize, old(Slots(key)), data)]
    {
      var cacheSlot := if key in cache then cache[key] else [];
      cacheSlot := [data] + cacheSlot;
      cacheSlot := if |cacheSlot| > cacheSize then cacheSlot[..cacheSize] else cacheSlot;
      cache := cache[key := cacheSlot];
    }

    method HandleOrderBookMessage(key: string, data: Message)
      modifies this
      ensures Slots(key) == Handled(cacheSize, old(Slots(key)), data)
      ensures forall k :: k != key ==> (k in cache <==> k in old(cache)) && (k in cache ==> cache[k] == old(cache)[k])
    {
      if data.Snapshot? {
        PushToObservable(key, data.book);
        return;
      }
      var orderbooks := if key in cache then cache[key] else [];
      if |orderbooks| == 0 {
        return;
      }
      var orderbook := orderbooks[0];
      orderbook := orderbook.(asks := Minus(orderbook.asks, data.asks.remove));
      orderbook := orderbook.(bids := Minus(orderbook.bids, data.bids.remove));
      orderbook := orderbook.(asks := orderbook.asks + data.asks.add);
      orderbook := orderbook.(bids := orderbook.bids + data.bids.add);
      orderbook := orderbook.(asks := SortBy(false, orderbook.asks));
      orderbook := orderbook.(bids := SortBy(true, orderbook.bids));
      orderbook := orderbook.(meta := data.meta);
      cache := cache[key := orderbooks[0 := orderbook]];
      PushToObservable(key, orderbook);
    }
  }

  // ----- whole runs --------------------------------------------------------

  /** The gatherer's state and log after a run of observations. */
  function Gathering(start: int, run: seq<Observation>): (Gathered, seq<Message>) {
    if run == [] then (Gathered(None, start), [])
    else
      var (g, log) := Gathering(start, run[..|run| - 1]);
      (Observed(g, run[|run| - 1]), log + Published(g, run[|run| - 1]))
  }

  function Replayed(cacheSize: nat, slots: seq<Book>, log: seq<Message>): seq<Book> {
    if log == [] then slots
    else Handled(cacheSize, Replayed(cacheSize, slots, log[..|log| - 1]), log[|log| - 1])
  }

  ghost predicate SameSides(a: Book, b: Book) {
    a.asks == b.asks && a.bids == b.bids
  }

  /** The newest version at the replica has the sides the gatherer saw last. */
  ghost predicate InStep(slots: seq<Book>, g: Gathered) {
    slots != [] && g.last.Some? && SameSides(slots[0], g.last.value)
  }

  lemma {:induction false} ReplayedConcat(cacheSize: nat, slots: seq<Book>, a: seq<Message>, b: seq<Message>)
    ensures Replayed(cacheSize, slots, a + b) == Replayed(cacheSize, Replayed(cacheSize, slots, a), b)
  {
    if b == [] {
      assert a + b == a;
    } else {
      ReplayedConcat(cacheSize, slots, a, b[..|b| - 1]);
      assert (a + b)[..|a + b| - 1] == a + b[..|b| - 1];
    }
  }

  lemma {:induction false} HistoryIsBounded(cacheSize: nat, slots: seq<Book>, log: seq<Message>)
    requires |slots| <= cacheSize
    ensures |Replayed(cacheSize, slots, log)| <= cacheSize
  {
    if log != [] {
      HistoryIsBounded(cacheSize, slots, log[..|log| - 1]);
    }
  }

  /** What one observation publishes brings a replica that was in step back into step. */
  lemma PublishedKeepsStep(cacheSize: nat, slots: seq<Book>, g: Gathered, o: Observation)
    requires cacheSize > 0 && IsBook(o.book)
    requires g.last.Some? ==> IsBook(g.last.value)
    requires InStep(slots, g) || SnapshotDue(g, o)
    ensures InStep(Replayed(cacheSize, slots, Published(g, o)), Observed(g, o))
  {
    var messages := Published(g, o);
    if messages != [] {
      assert messages[..0] == [];
      assert Replayed(cacheSize, slots, []) == slots;
    }
    if !SnapshotDue(g, o) {
      var last := g.last.value;
      PatchRestores(false, last.asks, o.book.asks);
      PatchRestores(true, last.bids, o.book.bids);
      DiffIsMinimal(false, last.asks, o.book.asks);
      DiffIsMinimal(true, last.bids, o.book.bids);
    }
  }

  ghost predicate AreBooks(run: seq<Observation>) {
    forall i :: 0 <= i < |run| ==> IsBook(run[i].book)
  }

  lemma {:induction false} LastGathered(start: int, run: seq<Observation>)
    ensures Gathering(start, run).0.last == if run == [] then None else Some(run[|run| - 1].book)
  {
  }

  /** After every run, whatever the snapshot timing, replaying the log leaves the replica in step with the gatherer,
      with no more versions than its cache size. */
  lemma {:induction false} RunInStep(cacheSize: nat, start: int, run: seq<Observation>)
    requires cacheSize > 0 && AreBooks(run) && run != []
    ensures var (g, log) := Gathering(start, run);
      && InStep(Replayed(cacheSize, [], log), g)
      && g.last == Some(run[|run| - 1].book)
      && |Replayed(cacheSize, [], log)| <= cacheSize
  {
    var before, o := run[..|run| - 1], run[|run| - 1];
    var (g, log) := Gathering(start, before);
    LastGathered(start, before);
    LastGathered(start, run);
    hide Handled, Published;
    if before != [] {
      RunInStep(cacheSize, start, before);
    }
    ReplayedConcat(cacheSize, [], log, Published(g, o));
    hide Gathering, Replayed, IsBook;
    PublishedKeepsStep(cacheSize, Replayed(cacheSize, [], log), g, o);
    HistoryIsBounded(cacheSize, [], log + Published(g, o));
  }

  lemma SnapshotAlone(g: Gathered, o: Observation, k: nat)
    requires k < |Published(g, o)| && Published(g, o)[k].Snapshot?
    ensures k == 0 && SnapshotDue(g, o)
  {
  }

  /** A replica that joins at any snapshot of the log, whatever it had cached, ends in step as well. */
  lemma {:induction false} JoinAtSnapshot(cacheSize: nat, start: int, run: seq<Observation>, slots: seq<Book>, at: nat)
    requires cacheSize > 0 && AreBooks(run)
    requires at < |Gathering(start, run).1| && Gathering(start, run).1[at].Snapshot?
    ensures var (g, log) := Gathering(start, run);
      InStep(Replayed(cacheSize, slots, log[at..]), g)
  {
    hide Handled, Replayed, IsBook, Published, Observed, InStep, SnapshotDue;
    if run != [] {
      var before, o := run[..|run| - 1], run[|run| - 1];
      var (g, log) := Gathering(start, before);
      var more := Published(g, o);
      LastGathered(start, before);
      if at < |log| {
        assert log[at] == (log + more)[at];
        JoinAtSnapshot(cacheSize, start, before, slots, at);
        assert (log + more)[at..] == log[at..] + more;
        ReplayedConcat(cacheSize, slots, log[at..], more);
        PublishedKeepsStep(cacheSize, Replayed(cacheSize, slots, log[at..]), g, o);
      } else {
        assert (log + more)[at] == more[at - |log|];
        SnapshotAlone(g, o, at - |log|);
        assert (log + more)[at..] == more;
        PublishedKeepsStep(cacheSize, slots, g, o);
      }
    }
  }

  /** The version a message finds newest is kept behind the new one if, and only if, the message is a snapshot or a
      delta without effect. */
  lemma PreviousVersionSurvives(cacheSize: nat, slots: seq<Book>, m: Message)
    requires cacheSize > 1 && slots != []
    ensures var r := Handled(cacheSize, slots, m);
      && |r| > 1 && r[2..] == slots[1..Min(|slots|, cacheSize - 1)]
      && (r[1] == slots[0] <==> m.Snapshot? || PatchedBook(slots[0], m) == slots[0])
  {
    hide PatchedBook;
    assert |slots| >= cacheSize ==> slots[1..Min(|slots|, cacheSize - 1)] == slots[..cacheSize - 1][1..];
    if m.Deltas? {
      var patched := PatchedBook(slots[0], m);
      PushedBehind(cacheSize, slots[0 := patched], patched);
    } else {
      PushedBehind(cacheSize, slots, m.book);
    }
  }

  lemma PushedBehind(cacheSize: nat, slots: seq<Book>, data: Book)
    requires cacheSize > 1 && slots != []
    ensures var r := Pushed(cacheSize, slots, data);
      |r| > 1 && r[1] == slots[0] && r[2..] == slots[1..Min(|slots|, cacheSize - 1)]
  {
  }

  /** What the gatherer publishes keeps the version it finds newest at a replica in step if, and only if, it is a
      snapshot. */
  lemma PublishedSurvival(cacheSize: nat, slots: seq<Book>, g: Gathered, o: Observation, m: Message)
    requires cacheSize > 1 && InStep(slots, g) && IsBook(g.last.value) && IsBook(o.book) && Published(g, o) == [m]
    ensures var r := Handled(cacheSize, slots, m);
      |r| > 1 && (r[1] == slots[0] <==> m.Snapshot?)
  {
    PreviousVersionSurvives(cacheSize, slots, m);
    hide Handled;
    if m.Deltas? {
      var last := g.last.value;
      PatchRestores(false, last.asks, o.book.asks);
      PatchRestores(true, last.bids, o.book.bids);
      DiffIsMinimal(false, last.asks, o.book.asks);
      DiffIsMinimal(true, last.bids, o.book.bids);
    }
  }

  /** Over every run: the version newest so far is kept behind the next one published if, and only if, a snapshot is
      due. */
  lemma RunSurvival(cacheSize: nat, start: int, run: seq<Observation>, o: Observation, m: Message)
    requires cacheSize > 1 && AreBooks(run) && run != [] && IsBook(o.book)
    requires Published(Gathering(start, run).0, o) == [m]
    ensures var (g, log) := Gathering(start, run);
      var slots := Replayed(cacheSize, [], log);
      var r := Handled(cacheSize, slots, m);
      slots != [] && |r| > 1 && (r[1] == slots[0] <==> SnapshotDue(g, o))
  {
    RunInStep(cacheSize, start, run);
    var (g, log) := Gathering(start, run);
    assert IsBook(run[|run| - 1].book);
    hide Handled, Replayed, Gathering, IsBook;
    PublishedSurvival(cacheSize, Replayed(cacheSize, [], log), g, o, m);
    PublishedKind(g, o, m);
  }

  lemma PublishedKind(g: Gathered, o: Observation, m: Message)
    requires Published(g, o) == [m]
    ensures m.Snapshot? <==> SnapshotDue(g, o)
  {
  }

  // ----- the whole history -------------------------------------------------

  /** The book behind a log that starts with a snapshot. */
  function Version(log: seq<Message>): Book
    requires log != [] && log[0].Snapshot?
  {
    var m := log[|log| - 1];
    match m
    case Snapshot(book) => book
    case Deltas(_, _, _) => PatchedBook(Version(log[..|log| - 1]), m)
  }

  /** How often the i-th version is in the history: a snapshot once, deltas twice, and once less if deltas follow. */
  function Copies(log: seq<Message>, i: nat): nat
    requires 0 < i <= |log|
  {
    (if log[i - 1].Deltas? then 2 else 1) - (if i < |log| && log[i].Deltas? then 1 else 0)
  }

  function Times(n: nat, book: Book): (r: seq<Book>)
    ensures |r| == n && forall i :: 0 <= i < n ==> r[i] == book
  {
    seq(n, _ => book)
  }

  /** The versions behind the first i messages, the newest first, each as often as it is kept. */
  function History(log: seq<Message>, i: nat): seq<Book>
    requires log != [] && log[0].Snapshot? && i <= |log|
  {
    if i == 0 then [] else Times(Copies(log, i), Version(log[..i])) + History(log, i - 1)
  }

  function Take<T>(n: nat, s: seq<T>): seq<T> {
    if |s| > n then s[..n] else s
  }

  lemma HistoryStep(log: seq<Message>, i: nat)
    requires log != [] && log[0].Snapshot? && 0 < i <= |log|
    ensures History(log, i) == Times(Copies(log, i), Version(log[..i])) + History(log, i - 1)
  {
  }

  lemma {:induction false} EarlierHistory(log: seq<Message>, m: Message, i: nat)
    requires log != [] && log[0].Snapshot? && i < |log|
    ensures History(log + [m], i) == History(log, i)
  {
    hide Version, Times, History;
    var all := log + [m];
    if i > 0 {
      EarlierHistory(log, m, i - 1);
      HistoryStep(log, i);
      HistoryStep(all, i);
      assert all[..i] == log[..i] && all[i - 1] == log[i - 1] && all[i] == log[i];
    } else {
      NoHistory(log);
      NoHistory(all);
    }
  }

  lemma NoHistory(log: seq<Message>)
    requires log != [] && log[0].Snapshot?
    ensures History(log, 0) == []
  {
  }

  lemma MoreCopies(log: seq<Message>, m: Message)
    requires log != []
    ensures var all := log + [m];
      && Copies(all, |log|) == Copies(log, |log|) - (if m.Deltas? then 1 else 0)
      && Copies(all, |all|) == (if m.Deltas? then 2 else 1)
      && Copies(log, |log|) >= 1
  {
    assert (log + [m])[|log|] == m && (log + [m])[|log| - 1] == log[|log| - 1];
  }

  lemma CopiesInFront(n: nat, book: Book, rest: seq<Book>)
    ensures n >= 1 ==> (Times(n, book) + rest)[0] == book && (Times(n, book) + rest)[1..] == Times(n - 1, book) + rest
    ensures Times(1, book) == [book] && Times(2, book) == [book, book]
  {
    assert n >= 1 ==> Times(n, book)[1..] == Times(n - 1, book);
  }

  /** The history behind one more message: deltas take one copy of the version they find. */
  lemma HistoryGrows(log: seq<Message>, m: Message)
    requires log != [] && log[0].Snapshot?
    ensures var all, h := log + [m], History(log, |log|);
      && h != [] && h[0] == Version(log)
      && Version(all) == (if m.Snapshot? then m.book else PatchedBook(Version(log), m))
      && History(all, |all|) ==
        (if m.Snapshot? then [Version(all)] + h else [Version(all), Version(all)] + h[1..])
  {
    hide Version, PatchedBook, History, Times, Copies;
    var all, n := log + [m], |log|;
    EarlierHistory(log, m, n - 1);
    assert all[..n] == log && all[..n + 1] == all && log[..n] == log;
    VersionGrows(log, m);
    HistoryStep(log, n);
    HistoryStep(all, n);
    HistoryStep(all, n + 1);
    MoreCopies(log, m);
    CopiesInFront(Copies(log, n), Version(log), History(log, n - 1));
    CopiesInFront(Copies(all, n + 1), Version(all), []);
  }

  lemma VersionGrows(log: seq<Message>, m: Message)
    requires log != [] && log[0].Snapshot?
    ensures Version(log + [m]) == if m.Snapshot? then m.book else PatchedBook(Version(log), m)
  {
    assert (log + [m])[..|log|] == log;
  }

  /** Handling a message on the cut-off history is cutting off the history handled. */
  lemma HandledCut(cacheSize: nat, h: seq<Book>, m: Message)
    requires cacheSize > 0 && h != []
    ensures Handled(cacheSize, Take(cacheSize, h), m) == Take(cacheSize,
      if m.Snapshot? then [m.book] + h else [PatchedBook(h[0], m), PatchedBook(h[0], m)] + h[1..])
  {
    hide PatchedBook;
    if m.Snapshot? {
      PushedCut(cacheSize, h, m.book);
    } else {
      var p := PatchedBook(h[0], m);
      assert Take(cacheSize, h)[0 := p] == Take(cacheSize, h[0 := p]);
      PushedCut(cacheSize, h[0 := p], p);
      assert [p] + h[0 := p] == [p, p] + h[1..];
    }
  }

  lemma PushedCut(cacheSize: nat, h: seq<Book>, data: Book)
    ensures Pushed(cacheSize, Take(cacheSize, h), data) == Take(cacheSize, [data] + h)
  {
  }

  /** The replica's versions are exactly the history, the newest first, cut off at the cache size: a snapshot once, deltas
      twice, each once less if deltas follow. So what is lost are the snapshots that deltas follow. */
  lemma {:induction false} ReplayedIsHistory(cacheSize: nat, log: seq<Message>)
    requires cacheSize > 0 && log != [] && log[0].Snapshot?
    ensures Replayed(cacheSize, [], log) == Take(cacheSize, History(log, |log|))
  {
    var before, m := log[..|log| - 1], log[|log| - 1];
    assert log == before + [m];
    if before == [] {
      FirstVersion(cacheSize, m);
    } else {
      ReplayedIsHistory(cacheSize, before);
      HistoryGrows(before, m);
      hide History, Version, Handled, PatchedBook, Take;
      HandledCut(cacheSize, History(before, |before|), m);
    }
  }

  lemma FirstVersion(cacheSize: nat, m: Message)
    requires cacheSize > 0 && m.Snapshot?
    ensures Replayed(cacheSize, [], [m]) == Take(cacheSize, History([m], 1))
  {
    assert [m][..0] == [] && [m][..1] == [m];
    assert Replayed(cacheSize, [], []) == [];
    assert Times(1, m.book) == [m.book];
    assert History([m], 0) == [];
  }

  /** What the gatherer publishes starts with a snapshot. */
  lemma {:induction false} LogStartsWithSnapshot(start: int, run: seq<Observation>)
    requires run != []
    ensures Gathering(start, run).1 != [] && Gathering(start, run).1[0].Snapshot?
  {
    if |run| > 1 {
      LogStartsWithSnapshot(start, run[..|run| - 1]);
      hide Published;
    } else {
      assert run[..0] == [];
    }
  }

  /** Over every run of the gatherer the replica's versions are exactly that history. */
  lemma RunHistory(cacheSize: nat, start: int, run: seq<Observation>)
    requires cacheSize > 0 && run != []
    ensures var log := Gathering(start, run).1;
      log != [] && log[0].Snapshot? && Replayed(cacheSize, [], log) == Take(cacheSize, History(log, |log|))
  {
    LogStartsWithSnapshot(start, run);
    hide Gathering, History, Take, Replayed;
    ReplayedIsHistory(cacheSize, Gathering(start, run).1);
  }

  const TOP := Quote(100.0, 1.0)
  const OLD_BOOK := Book([TOP], [], Meta(Some(1), None, None))

  /** Deltas that remove the only ask overwrite the version they find. */
  lemma DeltasOverwriteHistory()
    ensures var m := Deltas(Diff([], [TOP]), Diff([], []), Meta(Some(2), None, None));
      Handled(2, [OLD_BOOK], m) == [Book([], [], m.meta), Book([], [], m.meta)]
  {
    var m := Deltas(Diff([], [TOP]), Diff([], []), Meta(Some(2), None, None));
    NothingMinus([TOP]);
    assert Minus([], []) == [] && SortBy(false, []) == [] && SortBy(true, []) == [];
    assert PatchedBook(OLD_BOOK, m) == Book([], [], m.meta);
  }
}
