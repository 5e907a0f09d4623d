/** What a watcher of all orders sees, and when polls of single symbols make it see too much. */
module CacheWatch {
  import opened Basics
  import opened CacheModel

  const ALL := Polled(None)

  /** The last append, -1 if there is none. */
  function LastAny(events: seq<Event>): (m: int)
    ensures -1 <= m < |events|
    ensures m >= 0 ==> events[m].Appended?
    ensures forall i :: m < i < |events| ==> events[i].Polled?
  {
    if events == [] then -1
    else if events[|events| - 1].Appended? then |events| - 1
    else LastAny(events[..|events| - 1])
  }

  /** Was all polled behind position k and in front of position n? */
  ghost predicate AllPolledBetween(events: seq<Event>, k: int, n: int)
    requires n <= |events|
  {
    exists p :: 0 <= p && k < p < n && events[p] == ALL
  }

  ghost predicate SymbolPolledBetween(events: seq<Event>, symbol: Symbol, k: int, n: int)
    requires n <= |events|
  {
    exists p :: 0 <= p && k < p < n && events[p] == Polled(Some(symbol))
  }

  /** Updated since the last poll of all orders that came before the last update. */
  ghost predicate IsFresh(events: seq<Event>, r: Ref) {
    var k := LastAppend(events, r);
    k >= 0 && !AllPolledBetween(events, k, LastAny(events))
  }

  /** An update that is counted a second time: its symbol was polled between two updates of the order. */
  ghost predicate CountsTwice(events: seq<Event>, i: int, j: int, n: int) {
    && 0 <= i < j < n <= |events| && events[i].Appended? && events[i] == events[j]
    && SymbolPolledBetween(events, events[i].ref.symbol, i, j)
  }

  /** Some fresh order was updated, its symbol polled, and the order updated again. */
  ghost predicate Reannounced(events: seq<Event>) {
    exists i, j :: CountsTwice(events, i, j, |events|) && !AllPolledBetween(events, i, LastAny(events))
  }

  /** The fresh orders, as a set. */
  ghost function FreshSet(events: seq<Event>): set<Ref> {
    if events == [] then {}
    else
      var before, e := events[..|events| - 1], events[|events| - 1];
      match e
      case Polled(_) => FreshSet(before)
      case Appended(r) =>
        (if AllPolledBetween(before, LastAny(before), |before|) then {} else FreshSet(before)) + {r}
  }

  // ----- one more event ----------------------------------------------------

  lemma LastAnyStep(events: seq<Event>, e: Event)
    ensures LastAny(events + [e]) == if e.Appended? then |events| else LastAny(events)
  {
    assert (events + [e])[..|events|] == events;
  }

  lemma AllPolledStep(events: seq<Event>, e: Event, k: int, n: int)
    requires n <= |events|
    ensures AllPolledBetween(events + [e], k, n) <==> AllPolledBetween(events, k, n)
    ensures AllPolledBetween(events + [e], k, |events| + 1) <==>
      AllPolledBetween(events, k, |events|) || (k < |events| && e == ALL)
  {
    var all := events + [e];
    assert all[|events|] == e;
    assert forall i :: 0 <= i < |events| ==> all[i] == events[i];
  }

  lemma SymbolPolledStep(events: seq<Event>, e: Event, symbol: Symbol, k: int, n: int)
    requires n <= |events|
    ensures SymbolPolledBetween(events + [e], symbol, k, n) <==> SymbolPolledBetween(events, symbol, k, n)
  {
    var all := events + [e];
    assert forall i :: 0 <= i < |events| ==> all[i] == events[i];
  }

  lemma AllPolledSplit(events: seq<Event>, k: int, m: int, n: int)
    requires k <= m <= n <= |events|
    requires 0 <= m < |events| ==> events[m] != ALL
    ensures AllPolledBetween(events, k, n) <==> AllPolledBetween(events, k, m) || AllPolledBetween(events, m, n)
  {
    if AllPolledBetween(events, k, n) {
      var p :| 0 <= p && k < p < n && events[p] == ALL;
      assert p != m;
    }
  }

  lemma {:induction false} LastAppendBeforeLast(events: seq<Event>, r: Ref)
    ensures LastAppend(events, r) <= LastAny(events)
  {
    if events != [] {
      LastAppendBeforeLast(events[..|events| - 1], r);
    }
  }

  lemma {:induction false} LastAppendAfter(events: seq<Event>, i: nat)
    requires i < |events| && events[i].Appended?
    ensures i <= LastAppend(events, events[i].ref)
  {
    if i < |events| - 1 {
      LastAppendAfter(events[..|events| - 1], i);
    }
  }

  /** An append: fresh are this order and, unless all was polled, what was fresh before. */
  lemma FreshAfterUpdate(events: seq<Event>, r: Ref, x: Ref)
    ensures IsFresh(events + [Appended(r)], x) <==>
      x == r || (IsFresh(events, x) && !AllPolledBetween(events, LastAny(events), |events|))
  {
    hide LastAppend, LastAny, AllPolledBetween;
    var e, k, m := Appended(r), LastAppend(events, x), LastAny(events);
    LastAppendStep(events, e, x);
    LastAnyStep(events, e);
    LastAppendBeforeLast(events, x);
    AllPolledStep(events, e, k, |events|);
    LastIsAppend(events);
    AllPolledSplit(events, k, m, |events|);
    NoRoom(events + [e], |events|);
  }

  lemma LastIsAppend(events: seq<Event>)
    ensures 0 <= LastAny(events) < |events| ==> events[LastAny(events)] != ALL
  {
  }

  lemma NoRoom(events: seq<Event>, n: nat)
    requires n <= |events|
    ensures !AllPolledBetween(events, n, n)
  {
  }

  lemma FreshAfterPoll(events: seq<Event>, p: Option<Symbol>, x: Ref)
    ensures IsFresh(events + [Polled(p)], x) <==> IsFresh(events, x)
  {
    hide LastAppend, LastAny, AllPolledBetween;
    LastAppendStep(events, Polled(p), x);
    LastAnyStep(events, Polled(p));
    AllPolledStep(events, Polled(p), LastAppend(events, x), LastAny(events));
  }

  lemma {:induction false} FreshSetIs(events: seq<Event>)
    ensures forall x :: x in FreshSet(events) <==> IsFresh(events, x)
  {
    if events != [] {
      var before, e := events[..|events| - 1], events[|events| - 1];
      assert before + [e] == events;
      FreshSetIs(before);
      hide IsFresh, AllPolledBetween;
      forall x ensures x in FreshSet(events) <==> IsFresh(events, x) {
        match e
        case Appended(r) => FreshAfterUpdate(before, r, x);
        case Polled(p) => FreshAfterPoll(before, p, x);
      }
    }
  }

  // ----- counting twice ----------------------------------------------------

  lemma CountsTwiceStep(events: seq<Event>, e: Event, i: int, j: int)
    ensures CountsTwice(events + [e], i, j, |events|) <==> CountsTwice(events, i, j, |events|)
    ensures CountsTwice(events + [e], i, j, |events| + 1) <==>
      || CountsTwice(events, i, j, |events|)
      || (j == |events| && 0 <= i < |events| && e.Appended? && events[i] == e
          && SymbolPolledBetween(events, e.ref.symbol, i, |events|))
  {
    hide SymbolPolledBetween;
    var all := events + [e];
    assert all[|events|] == e;
    assert forall k :: 0 <= k < |events| ==> all[k] == events[k];
    if 0 <= i < |events| && events[i].Appended? && i < j <= |events| {
      SymbolPolledStep(events, e, events[i].ref.symbol, i, j);
    }
  }

  lemma ReannouncedAfterPoll(events: seq<Event>, p: Option<Symbol>)
    ensures Reannounced(events + [Polled(p)]) <==> Reannounced(events)
  {
    hide LastAny, AllPolledBetween, CountsTwice;
    var e := Polled(p);
    LastAnyStep(events, e);
    var all := events + [e];
    if Reannounced(all) {
      var i, j :| CountsTwice(all, i, j, |all|) && !AllPolledBetween(all, i, LastAny(all));
      CountsTwiceStep(events, e, i, j);
      AllPolledStep(events, e, i, LastAny(events));
      assert CountsTwice(events, i, j, |events|);
    }
    if Reannounced(events) {
      var i, j :| CountsTwice(events, i, j, |events|) && !AllPolledBetween(events, i, LastAny(events));
      CountsTwiceStep(events, e, i, j);
      AllPolledStep(events, e, i, LastAny(events));
      assert CountsTwice(all, i, j, |all|);
    }
  }

  /** After a poll of all orders, the next update starts afresh. */
  lemma ReannouncedAfresh(events: seq<Event>, r: Ref)
    requires AllPolledBetween(events, LastAny(events), |events|)
    ensures !Reannounced(events + [Appended(r)])
  {
    hide CountsTwice, AllPolledBetween, LastAny;
    var all := events + [Appended(r)];
    if Reannounced(all) {
      var i, j :| CountsTwice(all, i, j, |all|) && !AllPolledBetween(all, i, LastAny(all));
      OldPairPolled(events, r, i, j);
    }
  }

  lemma OldPairPolled(events: seq<Event>, r: Ref, i: int, j: int)
    requires AllPolledBetween(events, LastAny(events), |events|)
    requires CountsTwice(events + [Appended(r)], i, j, |events| + 1)
    ensures AllPolledBetween(events + [Appended(r)], i, LastAny(events + [Appended(r)]))
  {
    hide CountsTwice, LastAny;
    LastAnyStep(events, Appended(r));
    TwiceIsBeforeLast(events, Appended(r), i, j);
    AllPolledStep(events, Appended(r), i, |events|);
  }

  lemma TwiceIsBeforeLast(events: seq<Event>, e: Event, i: int, j: int)
    requires CountsTwice(events + [e], i, j, |events| + 1)
    ensures i <= LastAny(events)
  {
    assert (events + [e])[i] == events[i];
  }

  /** Was the order's symbol polled since its last update? */
  ghost predicate PolledSinceUpdate(events: seq<Event>, r: Ref) {
    SymbolPolledBetween(events, r.symbol, LastAppend(events, r), |events|)
  }

  lemma ReannouncedAfterUpdate(events: seq<Event>, r: Ref)
    requires !AllPolledBetween(events, LastAny(events), |events|)
    ensures Reannounced(events + [Appended(r)]) <==>
      Reannounced(events) || (IsFresh(events, r) && PolledSinceUpdate(events, r))
  {
    hide LastAny, AllPolledBetween, LastAppend, SymbolPolledBetween, CountsTwice;
    var e, m := Appended(r), LastAny(events);
    var all := events + [e];
    LastAnyStep(events, e);
    LastIsAppend(events);
    if Reannounced(all) && !Reannounced(events) {
      var i, j :| CountsTwice(all, i, j, |events| + 1) && !AllPolledBetween(all, i, |events|);
      CountsTwiceStep(events, e, i, j);
      TwiceIsBeforeLast(events, e, i, j);
      AllPolledStep(events, e, i, |events|);
      AllPolledSplit(events, i, m, |events|);
      assert !CountsTwice(events, i, j, |events|);
      LastAppendAfter(events, i);
      NewTwice(events, r, i);
    }
    if Reannounced(events) {
      var i, j :| CountsTwice(events, i, j, |events|) && !AllPolledBetween(events, i, m);
      StillTwice(events, e, i, j);
    }
    if IsFresh(events, r) && PolledSinceUpdate(events, r) {
      var k := LastAppend(events, r);
      LastAppendIs(events, r);
      LastAppendBeforeLast(events, r);
      CountsTwiceStep(events, e, k, |events|);
      AllPolledStep(events, e, k, |events|);
      AllPolledSplit(events, k, m, |events|);
    }
  }

  lemma StillTwice(events: seq<Event>, e: Event, i: int, j: int)
    requires CountsTwice(events, i, j, |events|) && !AllPolledBetween(events, i, LastAny(events)) && e.Appended?
    requires !AllPolledBetween(events, LastAny(events), |events|)
    ensures Reannounced(events + [e])
  {
    hide LastAny, AllPolledBetween;
    var all := events + [e];
    LastAnyStep(events, e);
    LastIsAppend(events);
    CountsTwiceStep(events, e, i, j);
    TwiceIsBeforeLast(events, e, i, j);
    AllPolledStep(events, e, i, |events|);
    AllPolledSplit(events, i, LastAny(events), |events|);
    assert CountsTwice(all, i, j, |all|);
  }

  /** A pair of updates that no earlier pair accounts for: the poll came after the order's last update. */
  lemma NewTwice(events: seq<Event>, r: Ref, i: nat)
    requires i < |events| && events[i] == Appended(r) && SymbolPolledBetween(events, r.symbol, i, |events|)
    requires !AllPolledBetween(events, i, LastAny(events)) && !Reannounced(events)
    ensures IsFresh(events, r) && PolledSinceUpdate(events, r)
  {
    var k := LastAppend(events, r);
    LastAppendAfter(events, i);
    LastAppendIs(events, r);
    assert !AllPolledBetween(events, k, LastAny(events));
    assert i < k && SymbolPolledBetween(events, r.symbol, i, k) ==> CountsTwice(events, i, k, |events|);
    var p :| 0 <= p && i < p < |events| && events[p] == Polled(Some(r.symbol));
    assert p != k;
  }

  // ----- the counter -------------------------------------------------------

  /** How the counter of all new updates relates to the run. */
  ghost predicate TracksAll(events: seq<Event>, s: State) {
    && s.allNewUpdates >= |FreshSet(events)|
    && (s.allNewUpdates == |FreshSet(events)| <==> !Reannounced(events))
    && (s.clearAllUpdates <==> AllPolledBetween(events, LastAny(events), |events|))
  }

  lemma PollTracksAll(events: seq<Event>, s: State, p: Option<Symbol>)
    requires TracksAll(events, s)
    ensures TracksAll(events + [Polled(p)], GetLimit(s, p, None).0)
  {
    var e := Polled(p);
    assert (events + [e])[..|events|] == events;
    hide Reannounced, LastAny, AllPolledBetween;
    ReannouncedAfterPoll(events, p);
    LastAnyStep(events, e);
    AllPolledStep(events, e, LastAny(events), |events|);
  }

  /** Does an append count its order? Only if it is not among its symbol's new ids. */
  ghost predicate Counts(s: State, r: Ref) {
    s.clearAllUpdates || r.symbol in s.clears || r.symbol !in s.updates || r.id !in s.updates[r.symbol]
  }

  lemma CounterStep(s: State, maxSize: nat, r: Ref)
    ensures Append(s, maxSize, r).allNewUpdates ==
      (if s.clearAllUpdates then 0 else s.allNewUpdates) + (if Counts(s, r) then 1 else 0)
    ensures !Append(s, maxSize, r).clearAllUpdates
  {
    hide Spliced;
  }

  lemma PolledEither(events: seq<Event>, symbol: Symbol, k: int, n: int)
    requires n <= |events|
    ensures PolledBetween(events, symbol, k, n) <==>
      AllPolledBetween(events, k, n) || SymbolPolledBetween(events, symbol, k, n)
  {
    if AllPolledBetween(events, k, n) {
      var p :| 0 <= p && k < p < n && events[p] == ALL;
      assert Polls(events[p], symbol);
    }
    if SymbolPolledBetween(events, symbol, k, n) {
      var p :| 0 <= p && k < p < n && events[p] == Polled(Some(symbol));
      assert Polls(events[p], symbol);
    }
  }

  /** With no poll of all since the last update, an append counts its order exactly when it is not fresh or its symbol
      was polled since. */
  lemma CountsWhen(events: seq<Event>, s: State, r: Ref)
    requires Tracks(events, s, r.symbol) && TracksAll(events, s) && !s.clearAllUpdates
    ensures Counts(s, r) <==> !IsFresh(events, r) || PolledSinceUpdate(events, r)
  {
    hide LastAppend, LastOf, LastAny, PolledBetween, AllPolledBetween, SymbolPolledBetween, Reannounced, FreshSet;
    var k, l, m := LastAppend(events, r), LastOf(events, r.symbol), LastAny(events);
    LastAppendBound(events, r);
    NothingBefore(events, r.symbol);
    NotPolledAtUpdate(events, r.symbol);
    PolledSplit(events, r.symbol, k, l);
    PolledEither(events, r.symbol, k, |events|);
    LastAppendBeforeLast(events, r);
    LastIsAppend(events);
    AllPolledSplit(events, k, m, |events|);
    assert IsFresh(events, r) <==> k >= 0 && !AllPolledBetween(events, k, |events|);
  }

  lemma UpdateTracksAll(events: seq<Event>, s: State, maxSize: nat, r: Ref)
    requires Tracks(events, s, r.symbol) && TracksAll(events, s)
    ensures TracksAll(events + [Appended(r)], Append(s, maxSize, r))
  {
    var e := Appended(r);
    assert (events + [e])[..|events|] == events;
    hide Tracks, Reannounced, LastAny, AllPolledBetween, IsFresh, PolledSinceUpdate, Append, Counts;
    CounterStep(s, maxSize, r);
    FreshSetIs(events);
    LastAnyStep(events, e);
    NoRoom(events + [e], |events|);
    AllPolledStep(events, e, |events|, |events|);
    if s.clearAllUpdates {
      ReannouncedAfresh(events, r);
      CountsAfresh(s, r);
    } else {
      CountsWhen(events, s, r);
      ReannouncedAfterUpdate(events, r);
      OneMoreFresh(FreshSet(events), r);
    }
  }

  lemma CountsAfresh(s: State, r: Ref)
    requires s.clearAllUpdates
    ensures Counts(s, r)
  {
  }

  lemma OneMoreFresh(news: set<Ref>, r: Ref)
    ensures |news + {r}| == |news| + if r in news then 0 else 1
  {
    assert r in news ==> news + {r} == news;
  }

  /** For every run: the counter is at least the number of fresh orders, and equal to it exactly when no fresh order
      was announced twice. */
  lemma {:induction false} RunTracksAll(maxSize: nat, events: seq<Event>)
    requires AlwaysFindsOwn(maxSize, events)
    ensures TracksAll(events, Run(maxSize, events))
  {
    if events != [] {
      var before, e := events[..|events| - 1], events[|events| - 1];
      assert events == before + [e];
      RunTracksAll(maxSize, before);
      var s := Run(maxSize, before);
      hide TracksAll, Tracks, FindsOwnEntry, Append, GetLimit, IsRecent, Accounted;
      match e
      case Appended(r) =>
        RunInvariant(maxSize, before, r.symbol);
        UpdateTracksAll(before, s, maxSize, r);
      case Polled(p) =>
        PollTracksAll(before, s, p);
    }
  }

  // ----- what the watcher sees ---------------------------------------------

  /** The fresh entries, in the order of the cache. */
  ghost function FreshOf<T>(entries: seq<T>, news: set<T>): seq<T> {
    if entries == [] then []
    else
      var l := entries[|entries| - 1];
      FreshOf(entries[..|entries| - 1], news) + if l in news then [l] else []
  }

  /** A cache in which the fresh orders come last. */
  ghost predicate FreshLast<T>(entries: seq<T>, news: set<T>) {
    forall i, j :: 0 <= i < j < |entries| && entries[i] in news ==> entries[j] in news
  }

  lemma {:induction false} FreshOfIsTail<T>(entries: seq<T>, news: set<T>)
    requires FreshLast(entries, news)
    ensures var f := FreshOf(entries, news);
      |f| <= |entries| && f == entries[|entries| - |f|..]
    ensures forall x :: x in FreshOf(entries, news) <==> x in entries && x in news
  {
    if entries != [] {
      var front, l := entries[..|entries| - 1], entries[|entries| - 1];
      FreshOfIsTail(front, news);
      assert entries == front + [l];
      if l !in news {
        assert forall i :: 0 <= i < |front| ==> entries[i] !in news;
        NoneFresh(front, news);
      }
    }
  }

  lemma {:induction false} NoneFresh<T>(entries: seq<T>, news: set<T>)
    requires forall i :: 0 <= i < |entries| ==> entries[i] !in news
    ensures FreshOf(entries, news) == []
  {
    if entries != [] {
      NoneFresh(entries[..|entries| - 1], news);
    }
  }

  lemma {:induction false} DistinctSize<T>(entries: seq<T>)
    requires Distinct(entries)
    ensures |set x | x in entries| == |entries|
  {
    if entries != [] {
      var front, l := entries[..|entries| - 1], entries[|entries| - 1];
      DistinctSize(front);
      assert entries == front + [l];
      assert (set x | x in entries) == (set x | x in front) + {l};
      assert l !in front;
    }
  }

  /** An evicted fresh order is older than everything cached, so everything cached is fresh. */
  ghost predicate FreshCached<T>(entries: seq<T>, news: set<T>) {
    (forall x :: x in news ==> x in entries) || (forall x :: x in entries ==> x in news)
  }

  lemma LaterIsFresh(events: seq<Event>, a: Ref, b: Ref)
    requires IsFresh(events, a) && LastAppend(events, a) <= LastAppend(events, b)
    ensures IsFresh(events, b)
  {
  }

  lemma CacheIsFreshLast(maxSize: nat, events: seq<Event>, s: State)
    requires IsRecent(maxSize, events, s)
    ensures FreshLast(s.entries, FreshSet(events)) && FreshCached(s.entries, FreshSet(events))
  {
    FreshSetIs(events);
    hide FreshSet, LastAppend, LastAny;
    var news := FreshSet(events);
    forall i, j | 0 <= i < j < |s.entries| && s.entries[i] in news ensures s.entries[j] in news {
      LaterIsFresh(events, s.entries[i], s.entries[j]);
    }
    forall x, y | x in news && x !in s.entries && y in s.entries ensures y in news {
      LaterIsFresh(events, x, y);
    }
  }

  /** A tail of n entries shows exactly the fresh ones if these come last, and n is their number or they fill the
      cache. */
  lemma TailIsFresh<T>(entries: seq<T>, news: set<T>, n: nat)
    requires Distinct(entries) && n >= |news| && (n == 0 ==> entries == [])
    requires FreshLast(entries, news) && FreshCached(entries, news)
    ensures SliceTail(entries, n) == FreshOf(entries, news) <==>
      n == |news| || forall x :: x in entries ==> x in news
  {
    hide FreshOf, Distinct, FreshLast;
    var f := FreshOf(entries, news);
    FreshOfIsTail(entries, news);
    DistinctTail(entries, |f|);
    DistinctSize(f);
    var shown := set x | x in f;
    SubsetSize(shown, news);
    if forall x :: x in news ==> x in entries {
      assert shown == news;
    }
    if forall x :: x in entries ==> x in news {
      AllShown(entries, news);
    } else {
      NotAllShown(entries, news);
    }
  }

  /** The tail for a caller's own limit, which is not 0: it shows exactly the last of the fresh ones, also when the limit
      is no more than their number. */
  lemma LimitedTailIsFresh<T>(entries: seq<T>, news: set<T>, n: nat, limit: nat)
    requires Distinct(entries) && n >= |news| && (n == 0 ==> entries == []) && limit > 0
    requires FreshLast(entries, news) && FreshCached(entries, news)
    ensures SliceTail(entries, Min(n, limit)) == SliceTail(FreshOf(entries, news), limit) <==>
      || n == |news|
      || (forall x :: x in entries ==> x in news)
      || limit <= |FreshOf(entries, news)|
  {
    hide FreshOf, Distinct, FreshLast, FreshCached, SliceTail;
    FreshFewer(entries, news);
    FreshOfIsTail(entries, news);
    TailLengths(entries, FreshOf(entries, news), n, limit);
    if forall x :: x in entries ==> x in news {
      AllShown(entries, news);
    } else {
      NotAllShown(entries, news);
    }
  }

  /** Two tails of one sequence agree when they are equally long. */
  lemma TailLengths<T>(entries: seq<T>, tail: seq<T>, n: nat, limit: nat)
    requires |tail| <= |entries| && tail == entries[|entries| - |tail|..] && |tail| <= n && limit > 0
    requires n == 0 ==> entries == []
    ensures SliceTail(entries, Min(n, limit)) == SliceTail(tail, limit) <==>
      limit <= |tail| || n == |tail| || |tail| == |entries|
  {
    if limit <= |tail| {
      assert tail[|tail| - limit..] == entries[|entries| - limit..];
      assert limit == |tail| == |entries| ==> entries[0..] == entries;
    } else if |tail| == |entries| {
      assert tail == entries;
    } else {
      assert n == |tail| ==> Min(n, limit) == |tail|;
    }
  }

  /** There are at most as many cached fresh entries as fresh ones, and as many if none was evicted. */
  lemma FreshFewer<T>(entries: seq<T>, news: set<T>)
    requires Distinct(entries) && FreshLast(entries, news) && FreshCached(entries, news)
    ensures |FreshOf(entries, news)| <= |news|
    ensures |FreshOf(entries, news)| == |news| || forall x :: x in entries ==> x in news
  {
    hide FreshOf, Distinct, FreshLast;
    var f := FreshOf(entries, news);
    FreshOfIsTail(entries, news);
    DistinctTail(entries, |f|);
    DistinctSize(f);
    var shown := set x | x in f;
    SubsetSize(shown, news);
    if forall x :: x in news ==> x in entries {
      assert shown == news;
    }
  }

  lemma DistinctTail<T>(entries: seq<T>, n: nat)
    requires Distinct(entries) && n <= |entries|
    ensures Distinct(entries[|entries| - n..])
  {
  }

  lemma {:induction false} AllShown<T>(entries: seq<T>, news: set<T>)
    requires forall x :: x in entries ==> x in news
    ensures FreshOf(entries, news) == entries
  {
    if entries != [] {
      AllShown(entries[..|entries| - 1], news);
      assert entries == entries[..|entries| - 1] + [entries[|entries| - 1]];
    }
  }

  lemma {:induction false} NotAllShown<T>(entries: seq<T>, news: set<T>)
    requires exists x :: x in entries && x !in news
    ensures |FreshOf(entries, news)| < |entries|
  {
    var x :| x in entries && x !in news;
    var front, l := entries[..|entries| - 1], entries[|entries| - 1];
    assert entries == front + [l];
    if l in news {
      assert x in front;
      NotAllShown(front, news);
    } else {
      ShowsAtMost(front, news);
    }
  }

  lemma {:induction false} ShowsAtMost<T>(entries: seq<T>, news: set<T>)
    ensures |FreshOf(entries, news)| <= |entries|
  {
    if entries != [] {
      ShowsAtMost(entries[..|entries| - 1], news);
    }
  }

  /** A watcher of all orders gets exactly the cached orders updated since the last poll of all that came before the last
      update, or the last of these for a limit of his own, if and only if no such order was announced twice, all cached
      orders are fresh, or the limit is no more than the fresh ones; a limit of 0 shows everything. */
  lemma AllWatcherSeesFresh(maxSize: nat, events: seq<Event>, limit: Option<nat>)
    requires AlwaysFindsOwn(maxSize, events)
    ensures var s := Run(maxSize, events);
      var shown, f := TailFilter(s.entries, None, GetLimit(s, None, limit).1), FreshOf(s.entries, FreshSet(events));
      && (forall x :: x in FreshSet(events) <==> IsFresh(events, x))
      && (limit == Some(0) ==> shown == s.entries)
      && (limit != Some(0) ==>
        (shown == (if limit.Some? then SliceTail(f, limit.value) else f) <==>
          || !Reannounced(events)
          || (forall r :: r in s.entries ==> IsFresh(events, r))
          || (limit.Some? && limit.value <= |f|)))
  {
    AllPollCounts(maxSize, events);
    FreshSetIs(events);
    hide *;
    AllTailIsFresh(Run(maxSize, events), FreshSet(events), limit);
  }

  /** What a poll of all finds: the fresh orders last, and a counter that may be too high. */
  ghost predicate CountsFresh(s: State, news: set<Ref>) {
    && Distinct(s.entries) && FreshLast(s.entries, news) && FreshCached(s.entries, news)
    && s.allNewUpdates >= |news| && (s.allNewUpdates == 0 ==> s.entries == [])
  }

  lemma AllPollCounts(maxSize: nat, events: seq<Event>)
    requires AlwaysFindsOwn(maxSize, events)
    ensures var s, news := Run(maxSize, events), FreshSet(events);
      CountsFresh(s, news) && (s.allNewUpdates == |news| <==> !Reannounced(events))
  {
    RunInvariant(maxSize, events, "");
    RunTracksAll(maxSize, events);
    var s := Run(maxSize, events);
    hide Run, IsRecent, FreshSet, Reannounced, FreshLast, FreshCached, Distinct, Tracks, Accounted, AlwaysFindsOwn;
    CacheIsFreshLast(maxSize, events, s);
    RecentIsDistinct(events, s, maxSize);
    NothingCached(maxSize, events);
  }

  lemma AllTailIsFresh(s: State, news: set<Ref>, limit: Option<nat>)
    requires CountsFresh(s, news)
    ensures var shown, f := TailFilter(s.entries, None, GetLimit(s, None, limit).1), FreshOf(s.entries, news);
      && (limit == Some(0) ==> shown == s.entries)
      && (limit != Some(0) ==>
        (shown == (if limit.Some? then SliceTail(f, limit.value) else f) <==>
          || s.allNewUpdates == |news|
          || (forall r :: r in s.entries ==> r in news)
          || (limit.Some? && limit.value <= |f|)))
  {
    hide FreshOf, FreshLast, FreshCached, Distinct;
    if limit.None? {
      TailIsFresh(s.entries, news, s.allNewUpdates);
    } else if limit.value > 0 {
      LimitedTailIsFresh(s.entries, news, s.allNewUpdates, limit.value);
    }
  }

  lemma NothingCached(maxSize: nat, events: seq<Event>)
    requires AlwaysFindsOwn(maxSize, events)
    ensures Run(maxSize, events).allNewUpdates == 0 ==> Run(maxSize, events).entries == []
  {
    RunInvariant(maxSize, events, "");
    RunTracksAll(maxSize, events);
    FreshSetIs(events);
    var m, s := LastAny(events), Run(maxSize, events);
    if m >= 0 {
      var r := events[m].ref;
      LastAppendAfter(events, m);
      assert IsFresh(events, r);
      OneMoreFresh(FreshSet(events) - {r}, r);
    }
    hide Run, Tracks, Accounted, LastAppend, FreshSet;
    if s.entries != [] {
      LastAppendBeforeLast(events, s.entries[0]);
    }
  }

  // ----- a poll of one symbol in between -----------------------------------

  const A := Ref("S", "1")
  const B := Ref("S", "2")
  const AFTER_A := State([A], {A}, map["S" := {"1"}], {}, 1, false)
  const AFTER_B := State([A, B], {A, B}, map["S" := {"2"}], {}, 1, false)

  lemma FirstUpdate()
    ensures Append(EMPTY, 0, A) == AFTER_A
  {
    var s := Append(EMPTY, 0, A);
    assert s.updates["S"] == {"1"};
    assert s.clears == {} && s.updates == AFTER_A.updates;
  }

  lemma SecondUpdate()
    ensures Append(AFTER_A.(clearAllUpdates := true), 0, B) == AFTER_B
  {
    var s := Append(AFTER_A.(clearAllUpdates := true), 0, B);
    assert s.updates["S"] == {"2"};
    assert s.clears == {} && s.updates == AFTER_B.updates;
  }

  lemma ThirdUpdate()
    ensures Append(AFTER_B.(clears := {"S"}), 0, B) == AFTER_B.(allNewUpdates := 2)
  {
    var s := Append(AFTER_B.(clears := {"S"}), 0, B);
    assert FindIndex([A, B], "2") == 1;
    assert s.entries == [A, B] && s.index == {A, B};
    assert s.updates["S"] == {"2"};
    assert s.clears == {} && s.updates == AFTER_B.updates;
  }

  /** Polling one symbol between two updates of the same order makes the watcher of all orders see an old one again. */
  lemma SymbolPollShowsOld()
    ensures var events := [Appended(A), ALL, Appended(B), Polled(Some("S")), Appended(B)];
      var s := Run(0, events);
      && OneSymbolPerId(events)
      && TailFilter(s.entries, None, GetLimit(s, None, None).1) == [A, B]
      && !IsFresh(events, A)
  {
    hide Append, Run, LastAppend, LastAny;
    assert Run(0, []) == EMPTY by { EmptyRun(0); }
    FirstUpdate();
    SecondUpdate();
    ThirdUpdate();
    var a, b, p := Appended(A), Appended(B), Polled(Some("S"));
    RunStep(0, [], a);
    assert [] + [a] == [a];
    RunStep(0, [a], ALL);
    assert [a] + [ALL] == [a, ALL];
    RunStep(0, [a, ALL], b);
    assert [a, ALL] + [b] == [a, ALL, b];
    RunStep(0, [a, ALL, b], p);
    assert [a, ALL, b] + [p] == [a, ALL, b, p];
    RunStep(0, [a, ALL, b, p], b);
    var events := [a, ALL, b, p] + [b];
    assert events == [a, ALL, b, p, b];
    assert events[0] == a && events[1] == ALL;
    LastAnyStep([a, ALL, b, p], b);
    if IsFresh(events, A) {
      LastAppendIs(events, A);
    }
  }
}
