/** The bounded cache keyed by timestamp, and when its watcher sees the updated entries. */
module SeriesCache {
  import opened Basics
  import opened CacheModel
  import opened CacheWatch

  // ----- on values ---------------------------------------------------------

  /** times: the array; keys: the keys of the map; tracker: the times counted as new. */
  datatype Series = Series(times: seq<int>, keys: set<int>, tracker: set<int>, newUpdates: nat, clearUpdates: bool)

  const EMPTY_SERIES := Series([], {}, {}, 0, false)

  function Kept(s: Series, maxSize: nat, time: int): Series {
    if time in s.keys then s
    else if maxSize > 0 && |s.times| == maxSize then
      s.(times := s.times[1..] + [time], keys := s.keys + {time} - {s.times[0]})
    else s.(times := s.times + [time], keys := s.keys + {time})
  }

  function Tracked(s: Series, time: int): Series {
    var tracker := (if s.clearUpdates then {} else s.tracker) + {time};
    s.(tracker := tracker, newUpdates := |tracker|, clearUpdates := false)
  }

  function AppendTime(s: Series, maxSize: nat, time: int): Series {
    Tracked(Kept(s, maxSize, time), time)
  }

  datatype SeriesEvent = At(time: int) | Poll

  function AfterEvent(s: Series, maxSize: nat, e: SeriesEvent): Series {
    match e
    case At(time) => AppendTime(s, maxSize, time)
    case Poll => s.(clearUpdates := true)
  }

  function SeriesRun(maxSize: nat, events: seq<SeriesEvent>): Series {
    if events == [] then EMPTY_SERIES
    else AfterEvent(SeriesRun(maxSize, events[..|events| - 1]), maxSize, events[|events| - 1])
  }

  // ----- what is new -------------------------------------------------------

  /** The position of the last update, -1 if there is none. */
  function LastUpdate(events: seq<SeriesEvent>): (m: int)
    ensures -1 <= m < |events|
    ensures m >= 0 ==> events[m].At?
    ensures forall i :: m < i < |events| ==> events[i] == Poll
  {
    if events == [] then -1
    else if events[|events| - 1].At? then |events| - 1
    else LastUpdate(events[..|events| - 1])
  }

  /** Updated with no poll between that update and the last one. */
  ghost predicate IsNewTime(events: seq<SeriesEvent>, time: int) {
    exists i :: 0 <= i <= LastUpdate(events) && events[i] == At(time)
      && forall p :: i < p < LastUpdate(events) ==> events[p] != Poll
  }

  ghost predicate SeriesTracks(events: seq<SeriesEvent>, s: Series) {
    && (forall t :: t in s.tracker <==> IsNewTime(events, t))
    && s.newUpdates == |s.tracker|
    && (s.clearUpdates <==> LastUpdate(events) < |events| - 1)
    && (LastUpdate(events) >= 0 <==> s.tracker != {})
  }

  ghost predicate SeriesValid(maxSize: nat, s: Series) {
    && Distinct(s.times)
    && (forall t :: t in s.keys <==> t in s.times)
    && (maxSize > 0 ==> |s.times| <= maxSize)
    && (s.tracker == {} ==> s.times == [])
  }

  lemma UpdateStep(events: seq<SeriesEvent>, e: SeriesEvent)
    ensures LastUpdate(events + [e]) == if e.At? then |events| else LastUpdate(events)
  {
    assert (events + [e])[..|events|] == events;
  }

  lemma NewTimeAfterPoll(events: seq<SeriesEvent>, t: int)
    ensures IsNewTime(events + [Poll], t) <==> IsNewTime(events, t)
  {
    hide LastUpdate;
    UpdateStep(events, Poll);
    var all := events + [Poll];
    assert forall i :: 0 <= i < |events| ==> all[i] == events[i];
  }

  /** After an update: new are its time and, unless there was a poll, the times that were new before. */
  lemma NewTimeAfterUpdate(events: seq<SeriesEvent>, time: int, t: int)
    ensures IsNewTime(events + [At(time)], t) <==>
      t == time || (IsNewTime(events, t) && LastUpdate(events) == |events| - 1)
  {
    hide LastUpdate;
    UpdateStep(events, At(time));
    var all := events + [At(time)];
    var m := LastUpdate(events);
    assert all[|events|] == At(time);
    assert forall i :: 0 <= i < |events| ==> all[i] == events[i];
    if IsNewTime(all, t) && t != time {
      var i :| 0 <= i <= |events| && all[i] == At(t) && forall p :: i < p < |events| ==> all[p] != Poll;
      assert i < |events| && events[i] == At(t);
      assert all[|events| - 1] == events[|events| - 1];
      assert events[|events| - 1] != Poll;
    }
    if IsNewTime(events, t) && m == |events| - 1 {
      var i :| 0 <= i <= m && events[i] == At(t) && forall p :: i < p < m ==> events[p] != Poll;
      assert all[i] == At(t);
    }
  }

  lemma UpdateKeepsTracks(events: seq<SeriesEvent>, s: Series, maxSize: nat, time: int)
    requires SeriesTracks(events, s)
    ensures SeriesTracks(events + [At(time)], AppendTime(s, maxSize, time))
  {
    hide LastUpdate, IsNewTime;
    UpdateStep(events, At(time));
    forall t ensures IsNewTime(events + [At(time)], t) <==>
        t == time || (IsNewTime(events, t) && LastUpdate(events) == |events| - 1)
    {
      NewTimeAfterUpdate(events, time, t);
    }
  }

  lemma PollKeepsTracks(events: seq<SeriesEvent>, s: Series)
    requires SeriesTracks(events, s)
    ensures SeriesTracks(events + [Poll], s.(clearUpdates := true))
  {
    hide LastUpdate, IsNewTime;
    UpdateStep(events, Poll);
    forall t ensures IsNewTime(events + [Poll], t) <==> IsNewTime(events, t) {
      NewTimeAfterPoll(events, t);
    }
  }

  lemma {:induction false} SeriesInvariant(maxSize: nat, events: seq<SeriesEvent>)
    ensures SeriesTracks(events, SeriesRun(maxSize, events)) && SeriesValid(maxSize, SeriesRun(maxSize, events))
  {
    if events != [] {
      var before, e := events[..|events| - 1], events[|events| - 1];
      assert events == before + [e];
      SeriesInvariant(maxSize, before);
      var s := SeriesRun(maxSize, before);
      match e
      case At(time) =>
        UpdateKeepsTracks(before, s, maxSize, time);
        UpdateKeepsValid(maxSize, s, time);
      case Poll =>
        PollKeepsTracks(before, s);
    }
  }

  lemma DroppedKeepsDistinct(times: seq<int>, drop: nat, time: int)
    requires Distinct(times) && drop <= |times| && time !in times
    ensures Distinct(times[drop..] + [time])
    ensures forall t :: t in times[drop..] ==> t in times
  {
    var next := times[drop..] + [time];
    assert forall i :: 0 <= i < |next| - 1 ==> next[i] == times[i + drop] && times[i + drop] in times;
  }

  lemma KeptKeepsValid(maxSize: nat, s: Series, time: int)
    requires SeriesValid(maxSize, s)
    ensures var k := Kept(s, maxSize, time);
      && Distinct(k.times) && (forall t :: t in k.keys <==> t in k.times)
      && (maxSize > 0 ==> |k.times| <= maxSize)
  {
    if time !in s.keys {
      if maxSize > 0 && |s.times| == maxSize {
        DroppedKeepsDistinct(s.times, 1, time);
        assert s.times == [s.times[0]] + s.times[1..];
        assert s.times[0] !in s.times[1..];
      } else {
        DroppedKeepsDistinct(s.times, 0, time);
        assert s.times[0..] == s.times;
      }
    }
  }

  lemma UpdateKeepsValid(maxSize: nat, s: Series, time: int)
    requires SeriesValid(maxSize, s)
    ensures SeriesValid(maxSize, AppendTime(s, maxSize, time))
  {
    KeptKeepsValid(maxSize, s, time);
    hide Kept, Distinct;
    assert time in AppendTime(s, maxSize, time).tracker;
  }

  // ----- what the watcher sees ---------------------------------------------

  /** The last event that put a time into the array, -1 if there is none. */
  function Arrival(maxSize: nat, events: seq<SeriesEvent>, time: int): (k: int)
    ensures -1 <= k < |events|
  {
    if events == [] then -1
    else
      var before, e := events[..|events| - 1], events[|events| - 1];
      if e == At(time) && time !in SeriesRun(maxSize, before).keys then |events| - 1 else Arrival(maxSize, before, time)
  }

  /** The array lists times by arrival, and what was evicted arrived before what is cached. */
  ghost predicate ByArrival(maxSize: nat, events: seq<SeriesEvent>, times: seq<int>) {
    && (forall i, j :: 0 <= i < j < |times| ==> Arrival(maxSize, events, times[i]) < Arrival(maxSize, events, times[j]))
    && (forall t, u :: At(t) in events && t !in times && u in times ==>
      Arrival(maxSize, events, t) < Arrival(maxSize, events, u))
  }

  lemma ArrivalStep(maxSize: nat, events: seq<SeriesEvent>, e: SeriesEvent, t: int)
    ensures Arrival(maxSize, events + [e], t) ==
      if e == At(t) && t !in SeriesRun(maxSize, events).keys then |events| else Arrival(maxSize, events, t)
  {
    assert (events + [e])[..|events|] == events;
  }

  lemma OldStaysByArrival(maxSize: nat, events: seq<SeriesEvent>, e: SeriesEvent)
    requires ByArrival(maxSize, events, SeriesRun(maxSize, events).times)
    requires SeriesValid(maxSize, SeriesRun(maxSize, events))
    requires e.At? ==> e.time in SeriesRun(maxSize, events).times
    ensures ByArrival(maxSize, events + [e], SeriesRun(maxSize, events).times)
  {
    hide Arrival, SeriesRun;
    forall t ensures Arrival(maxSize, events + [e], t) == Arrival(maxSize, events, t) {
      ArrivalStep(maxSize, events, e, t);
    }
    assert forall t :: At(t) in events + [e] ==> At(t) in events || e == At(t);
  }

  lemma ArrivalsBehind(maxSize: nat, events: seq<SeriesEvent>, time: int)
    requires SeriesValid(maxSize, SeriesRun(maxSize, events)) && time !in SeriesRun(maxSize, events).times
    ensures Arrival(maxSize, events + [At(time)], time) == |events|
    ensures forall t :: t != time ==>
      Arrival(maxSize, events + [At(time)], t) == Arrival(maxSize, events, t) < |events|
  {
    hide Arrival, SeriesRun;
    ArrivalStep(maxSize, events, At(time), time);
    forall t | t != time ensures Arrival(maxSize, events + [At(time)], t) == Arrival(maxSize, events, t) {
      ArrivalStep(maxSize, events, At(time), t);
    }
  }

  /** What is not cached behind the update arrived before what is. */
  lemma EvictedFirst(maxSize: nat, events: seq<SeriesEvent>, time: int, drop: nat, t: int, u: int)
    requires ByArrival(maxSize, events, SeriesRun(maxSize, events).times)
    requires drop <= |SeriesRun(maxSize, events).times| && drop <= 1
    requires At(t) in events && t !in SeriesRun(maxSize, events).times[drop..]
    requires u in SeriesRun(maxSize, events).times[drop..]
    ensures Arrival(maxSize, events, t) < Arrival(maxSize, events, u)
  {
    hide Arrival, SeriesRun;
    var times := SeriesRun(maxSize, events).times;
    var j :| 0 <= j < |times[drop..]| && times[drop..][j] == u;
    assert times[j + drop] == u && u in times;
    if t in times {
      DroppedIsFirst(times, drop, t);
    }
  }

  lemma SortedByArrival(maxSize: nat, events: seq<SeriesEvent>, time: int, drop: nat, i: nat, j: nat)
    requires ByArrival(maxSize, events, SeriesRun(maxSize, events).times)
    requires SeriesValid(maxSize, SeriesRun(maxSize, events)) && time !in SeriesRun(maxSize, events).times
    requires drop <= |SeriesRun(maxSize, events).times|
    requires i < j < |SeriesRun(maxSize, events).times[drop..] + [time]|
    ensures var next := SeriesRun(maxSize, events).times[drop..] + [time];
      Arrival(maxSize, events + [At(time)], next[i]) < Arrival(maxSize, events + [At(time)], next[j])
  {
    hide Arrival, SeriesRun, SeriesValid;
    ArrivalsBehind(maxSize, events, time);
    var times := SeriesRun(maxSize, events).times;
    var next := times[drop..] + [time];
    assert next[i] == times[i + drop] && times[i + drop] in times;
    if j < |next| - 1 {
      assert next[j] == times[j + drop] && times[j + drop] in times;
    }
  }

  lemma NewStaysByArrival(maxSize: nat, events: seq<SeriesEvent>, time: int, drop: nat)
    requires ByArrival(maxSize, events, SeriesRun(maxSize, events).times)
    requires SeriesValid(maxSize, SeriesRun(maxSize, events))
    requires time !in SeriesRun(maxSize, events).times && drop <= |SeriesRun(maxSize, events).times| && drop <= 1
    ensures ByArrival(maxSize, events + [At(time)], SeriesRun(maxSize, events).times[drop..] + [time])
  {
    var times, all := SeriesRun(maxSize, events).times, events + [At(time)];
    var next := times[drop..] + [time];
    hide Arrival, SeriesRun, SeriesValid;
    forall i, j | 0 <= i < j < |next| ensures Arrival(maxSize, all, next[i]) < Arrival(maxSize, all, next[j]) {
      SortedByArrival(maxSize, events, time, drop, i, j);
    }
    forall t, u | At(t) in all && t !in next && u in next ensures Arrival(maxSize, all, t) < Arrival(maxSize, all, u) {
      NewEvictedFirst(maxSize, events, time, drop, t, u);
    }
  }

  lemma NewEvictedFirst(maxSize: nat, events: seq<SeriesEvent>, time: int, drop: nat, t: int, u: int)
    requires ByArrival(maxSize, events, SeriesRun(maxSize, events).times)
    requires SeriesValid(maxSize, SeriesRun(maxSize, events))
    requires time !in SeriesRun(maxSize, events).times && drop <= |SeriesRun(maxSize, events).times| && drop <= 1
    requires At(t) in events + [At(time)] && t !in SeriesRun(maxSize, events).times[drop..] + [time]
    requires u in SeriesRun(maxSize, events).times[drop..] + [time]
    ensures Arrival(maxSize, events + [At(time)], t) < Arrival(maxSize, events + [At(time)], u)
  {
    ArrivalsBehind(maxSize, events, time);
    hide Arrival, SeriesRun, SeriesValid, ByArrival;
    var next := SeriesRun(maxSize, events).times[drop..] + [time];
    assert time in next;
    assert At(t) in events;
    if u != time {
      EvictedFirst(maxSize, events, time, drop, t, u);
    }
  }

  lemma DroppedIsFirst(times: seq<int>, drop: nat, t: int)
    requires drop <= |times| && drop <= 1
    ensures t in times && t !in times[drop..] ==> drop == 1 && t == times[0]
  {
    assert drop == 0 ==> times[drop..] == times;
    assert drop == 1 ==> times == [times[0]] + times[1..];
  }

  lemma {:induction false} RunByArrival(maxSize: nat, events: seq<SeriesEvent>)
    ensures ByArrival(maxSize, events, SeriesRun(maxSize, events).times)
  {
    if events != [] {
      var before, e := events[..|events| - 1], events[|events| - 1];
      assert events == before + [e];
      RunByArrival(maxSize, before);
      SeriesInvariant(maxSize, before);
      StepByArrival(maxSize, before, e);
    }
  }

  lemma StepByArrival(maxSize: nat, events: seq<SeriesEvent>, e: SeriesEvent)
    requires ByArrival(maxSize, events, SeriesRun(maxSize, events).times)
    requires SeriesValid(maxSize, SeriesRun(maxSize, events))
    ensures ByArrival(maxSize, events + [e], SeriesRun(maxSize, events + [e]).times)
  {
    hide ByArrival, Arrival;
    assert (events + [e])[..|events|] == events;
    var s := SeriesRun(maxSize, events);
    TimesAfter(maxSize, s, e);
    hide AfterEvent, SeriesValid;
    if e == Poll || e.time in s.times {
      OldStaysByArrival(maxSize, events, e);
    } else {
      NewStaysByArrival(maxSize, events, e.time, if maxSize > 0 && |s.times| == maxSize then 1 else 0);
    }
  }

  lemma TimesAfter(maxSize: nat, s: Series, e: SeriesEvent)
    requires SeriesValid(maxSize, s)
    ensures AfterEvent(s, maxSize, e).times ==
      if e == Poll || e.time in s.times then s.times
      else s.times[if maxSize > 0 && |s.times| == maxSize then 1 else 0..] + [e.time]
  {
    assert s.times[0..] == s.times;
  }

  /** Some cached time that is not new arrived after a time that is new. */
  ghost predicate Skipped(maxSize: nat, events: seq<SeriesEvent>) {
    exists a, b :: IsNewTime(events, a) && b in SeriesRun(maxSize, events).times && !IsNewTime(events, b)
      && Arrival(maxSize, events, a) < Arrival(maxSize, events, b)
  }

  lemma NewWasAppended(events: seq<SeriesEvent>, a: int)
    requires IsNewTime(events, a)
    ensures At(a) in events
  {
  }

  lemma LaterIsNew(maxSize: nat, events: seq<SeriesEvent>, times: seq<int>, news: set<int>, a: int, b: int)
    requires ByArrival(maxSize, events, times) && FreshLast(times, news) && FreshCached(times, news)
    requires a in news && b in times && Arrival(maxSize, events, a) < Arrival(maxSize, events, b)
    ensures b in news
  {
    hide Arrival;
    if a in times {
      var i :| 0 <= i < |times| && times[i] == a;
      var j :| 0 <= j < |times| && times[j] == b;
      assert i < j;
    }
  }

  lemma SkippedIsNotLast(maxSize: nat, events: seq<SeriesEvent>)
    requires var s := SeriesRun(maxSize, events);
      ByArrival(maxSize, events, s.times) && forall t :: t in s.tracker <==> IsNewTime(events, t)
    ensures var s := SeriesRun(maxSize, events);
      FreshLast(s.times, s.tracker) && FreshCached(s.times, s.tracker) <==> !Skipped(maxSize, events)
  {
    hide SeriesRun, Arrival, IsNewTime;
    var s := SeriesRun(maxSize, events);
    if !Skipped(maxSize, events) {
      forall a, b | a in s.tracker && a !in s.times && b in s.times ensures b in s.tracker {
        NewWasAppended(events, a);
      }
    }
    if FreshLast(s.times, s.tracker) && FreshCached(s.times, s.tracker) {
      forall a, b | IsNewTime(events, a) && b in s.times && Arrival(maxSize, events, a) < Arrival(maxSize, events, b)
        ensures IsNewTime(events, b)
      {
        LaterIsNew(maxSize, events, s.times, s.tracker, a, b);
      }
    }
  }

  /** What getLimit returns: the count of the new times, or a smaller limit of the caller. */
  function LimitOf(s: Series, limit: Option<nat>): nat {
    if limit.Some? then Min(s.newUpdates, limit.value) else s.newUpdates
  }

  /** The tail getLimit asks for shows exactly the cached new entries, if and only if no cached entry that was not updated
      arrived after one that was; for a limit of the caller it shows the last of them, if and only if that holds or, when
      there are as many, the last entries are all new. A limit of 0 shows everything. */
  lemma SeriesWatcherSeesNew(maxSize: nat, events: seq<SeriesEvent>, limit: Option<nat>)
    ensures var s := SeriesRun(maxSize, events);
      var shown, f := SliceTail(s.times, LimitOf(s, limit)), FreshOf(s.times, s.tracker);
      && (forall t :: t in s.tracker <==> IsNewTime(events, t))
      && (limit == Some(0) ==> shown == s.times)
      && (limit.None? ==> (shown == f <==> !Skipped(maxSize, events)))
      && (limit.Some? && limit.value > 0 ==>
        (shown == SliceTail(f, limit.value) <==>
          if limit.value <= |f| then forall t :: t in SliceTail(s.times, limit.value) ==> IsNewTime(events, t)
          else !Skipped(maxSize, events)))
  {
    SeriesInvariant(maxSize, events);
    RunByArrival(maxSize, events);
    SkippedIsNotLast(maxSize, events);
    var s := SeriesRun(maxSize, events);
    hide SeriesRun, IsNewTime, Distinct, FreshOf, Skipped, ByArrival;
    TailShowsFresh(s.times, s.tracker);
    if limit.Some? && limit.value > 0 {
      LimitedTailShows(s.times, s.tracker, limit.value);
    }
  }

  /** The same tail for a limit. */
  lemma LimitedTailShows<T>(entries: seq<T>, news: set<T>, limit: nat)
    requires Distinct(entries) && (news == {} ==> entries == []) && limit > 0
    ensures var f := FreshOf(entries, news);
      SliceTail(entries, Min(|news|, limit)) == SliceTail(f, limit) <==>
        if limit <= |f| then forall x :: x in SliceTail(entries, limit) ==> x in news
        else FreshLast(entries, news) && FreshCached(entries, news)
  {
    hide FreshOf, Distinct, FreshLast, FreshCached;
    FreshFewerThan(entries, news);
    if limit <= |FreshOf(entries, news)| {
      ShortTailShows(entries, news, limit);
    } else {
      LongTailShows(entries, news, limit);
    }
  }

  lemma FreshFewerThan<T>(entries: seq<T>, news: set<T>)
    requires Distinct(entries)
    ensures |FreshOf(entries, news)| <= |news| && |FreshOf(entries, news)| <= |entries|
  {
    hide Distinct;
    ShowsAtMost(entries, news);
    FreshOfDistinct(entries, news);
    FreshOfContains(entries, news);
    var f := FreshOf(entries, news);
    DistinctSize(f);
    var shown := set x | x in f;
    forall x | x in shown ensures x in news {
      FreshIsNew(entries, news, x);
    }
    SubsetSize(shown, news);
  }

  lemma FreshIsNew<T>(entries: seq<T>, news: set<T>, x: T)
    requires x in FreshOf(entries, news)
    ensures x in news
  {
    FreshOfContains(entries, news);
  }

  lemma {:induction false} FreshOfDistinct<T>(entries: seq<T>, news: set<T>)
    requires Distinct(entries)
    ensures Distinct(FreshOf(entries, news))
  {
    if entries != [] {
      var front, l := entries[..|entries| - 1], entries[|entries| - 1];
      FreshOfDistinct(front, news);
      FreshOfContains(front, news);
      assert l !in front;
    }
  }

  lemma {:induction false} FreshOfConcat<T>(a: seq<T>, b: seq<T>, news: set<T>)
    ensures FreshOf(a + b, news) == FreshOf(a, news) + FreshOf(b, news)
  {
    if b == [] {
      assert a + b == a;
    } else {
      FreshOfConcat(a, b[..|b| - 1], news);
      assert (a + b)[..|a + b| - 1] == a + b[..|b| - 1];
    }
  }

  lemma ShortTailShows<T>(entries: seq<T>, news: set<T>, limit: nat)
    requires 0 < limit <= |FreshOf(entries, news)| <= |news| && |FreshOf(entries, news)| <= |entries|
    ensures SliceTail(entries, Min(|news|, limit)) == SliceTail(FreshOf(entries, news), limit) <==>
      forall x :: x in SliceTail(entries, limit) ==> x in news
  {
    hide FreshOf;
    var f := FreshOf(entries, news);
    FreshOfContains(entries, news);
    var front, tail := entries[..|entries| - limit], entries[|entries| - limit..];
    assert entries == front + tail && SliceTail(entries, limit) == tail;
    assert SliceTail(f, limit) == f[|f| - limit..];
    if forall x :: x in tail ==> x in news {
      AllShown(tail, news);
      FreshOfConcat(front, tail, news);
    }
    if tail == f[|f| - limit..] {
      assert forall x :: x in tail ==> x in f;
    }
  }

  lemma LongTailShows<T>(entries: seq<T>, news: set<T>, limit: nat)
    requires Distinct(entries) && (news == {} ==> entries == [])
    requires |FreshOf(entries, news)| <= |news| && |FreshOf(entries, news)| <= |entries|
    requires limit > |FreshOf(entries, news)|
    ensures SliceTail(entries, Min(|news|, limit)) == SliceTail(FreshOf(entries, news), limit) <==>
      FreshLast(entries, news) && FreshCached(entries, news)
  {
    var f := FreshOf(entries, news);
    TailShowsFresh(entries, news);
    hide FreshOf, Distinct;
    if FreshLast(entries, news) && FreshCached(entries, news) {
      FreshFewer(entries, news);
      if forall x :: x in entries ==> x in news {
        AllShown(entries, news);
      }
    }
    if SliceTail(entries, Min(|news|, limit)) == f && |f| == |entries| {
      FreshOfContains(entries, news);
      assert f == entries;
    }
  }

  lemma {:induction false} FreshOfContains<T>(entries: seq<T>, news: set<T>)
    ensures forall x :: x in FreshOf(entries, news) <==> x in entries && x in news
  {
    if entries != [] {
      FreshOfContains(entries[..|entries| - 1], news);
      assert entries == entries[..|entries| - 1] + [entries[|entries| - 1]];
    }
  }

  lemma TailShowsFresh<T>(entries: seq<T>, news: set<T>)
    requires Distinct(entries) && (news == {} ==> entries == [])
    ensures SliceTail(entries, |news|) == FreshOf(entries, news) <==>
      FreshLast(entries, news) && FreshCached(entries, news)
  {
    hide FreshOf;
    var n, f := |news|, FreshOf(entries, news);
    FreshOfContains(entries, news);
    if FreshLast(entries, news) && FreshCached(entries, news) {
      TailIsFresh(entries, news, n);
    }
    if SliceTail(entries, n) == f {
      if n < |entries| {
        TailAllFresh(entries, news, n);
      }
      assert FreshLast(entries, news);
    }
  }

  /** A tail of |news| new entries holds them all. */
  lemma TailAllFresh<T>(entries: seq<T>, news: set<T>, n: nat)
    requires Distinct(entries) && n == |news| && 0 < n < |entries|
    requires entries[|entries| - n..] == FreshOf(entries, news)
    ensures FreshLast(entries, news) && FreshCached(entries, news)
  {
    hide FreshOf, Distinct;
    var tail := entries[|entries| - n..];
    FreshOfContains(entries, news);
    DistinctTail(entries, n);
    DistinctSize(tail);
    var shown := set x | x in tail;
    SubsetSize(shown, news);
    forall x | x in news ensures x in entries {
      assert x in shown;
    }
    forall j | |entries| - n <= j < |entries| ensures entries[j] in news {
      assert entries[j] == tail[j - (|entries| - n)];
      assert entries[j] in tail;
    }
    forall i | 0 <= i < |entries| - n ensures entries[i] !in news {
      NotInTail(entries, n, i);
    }
  }

  lemma NotInTail<T>(entries: seq<T>, n: nat, i: nat)
    requires Distinct(entries) && n <= |entries| && i < |entries| - n
    ensures entries[i] !in entries[|entries| - n..]
  {
  }

  // ----- times that never go back ------------------------------------------

  ghost predicate NeverBack(events: seq<SeriesEvent>) {
    forall i, j :: 0 <= i < j < |events| && events[i].At? && events[j].At? ==> events[i].time <= events[j].time
  }

  /** With times that never go back the array is sorted and ends with the newest time. */
  ghost predicate SortedSeries(events: seq<SeriesEvent>, times: seq<int>) {
    && Ascending(times)
    && (forall e :: e in events && e.At? ==> times != [] && e.time <= times[|times| - 1])
    && (forall t :: t in times ==> At(t) in events)
    && (forall e, t :: e in events && e.At? && t in times && e.time !in times ==> e.time < t)
  }

  ghost predicate Ascending(times: seq<int>) {
    forall i, j :: 0 <= i < j < |times| ==> times[i] < times[j]
  }

  lemma NothingLater(events: seq<SeriesEvent>, times: seq<int>, time: int)
    requires SortedSeries(events, times) && NeverBack(events + [At(time)])
    ensures forall e :: e in events && e.At? ==> e.time <= time
    ensures forall t :: t in times ==> t <= time
  {
    hide Ascending;
    var all := events + [At(time)];
    forall e | e in events && e.At? ensures e.time <= time {
      var i :| 0 <= i < |events| && events[i] == e;
      assert all[i] == e && all[|events|] == At(time);
    }
    forall t | t in times ensures t <= time {
      assert At(t) in events;
    }
  }

  lemma OldTimeSorted(events: seq<SeriesEvent>, times: seq<int>, time: int)
    requires SortedSeries(events, times) && NeverBack(events + [At(time)]) && time in times
    ensures SortedSeries(events + [At(time)], times)
  {
    NothingLater(events, times, time);
    hide NeverBack;
    assert forall e :: e in events + [At(time)] ==> e in events || e == At(time);
    assert times[|times| - 1] in times;
  }

  lemma AscendingPush(times: seq<int>, drop: nat, time: int)
    requires Ascending(times) && drop <= |times| && forall t :: t in times ==> t < time
    ensures Ascending(times[drop..] + [time])
    ensures forall t, u :: t in times && t !in times[drop..] && u in times[drop..] ==> t < u
    ensures forall t :: t in times[drop..] ==> t in times
  {
    var next := times[drop..] + [time];
    forall i, j | 0 <= i < j < |next| ensures next[i] < next[j] {
      assert next[i] == times[i + drop] && times[i + drop] in times;
      assert j < |next| - 1 ==> next[j] == times[j + drop];
    }
    forall t, u | t in times && t !in times[drop..] && u in times[drop..] ensures t < u {
      var i :| 0 <= i < |times| && times[i] == t;
      var j :| 0 <= j < |times[drop..]| && times[drop..][j] == u;
      assert forall k :: drop <= k < |times| ==> times[k] == times[drop..][k - drop];
      assert times[drop + j] == u;
    }
  }

  lemma NewTimeSorted(events: seq<SeriesEvent>, times: seq<int>, time: int, drop: nat)
    requires SortedSeries(events, times) && NeverBack(events + [At(time)]) && time !in times && drop <= |times|
    ensures SortedSeries(events + [At(time)], times[drop..] + [time])
  {
    NothingLater(events, times, time);
    hide NeverBack, Ascending;
    assert forall e :: e in events + [At(time)] ==> e in events || e == At(time);
    assert forall t :: t in times ==> t < time;
    AscendingPush(times, drop, time);
    var kept, next := times[drop..], times[drop..] + [time];
    assert next[|next| - 1] == time;
    forall e, t | e in events + [At(time)] && e.At? && t in next && e.time !in next ensures e.time < t {
      EarlierThanKept(events, times, kept, time, e.time, t);
    }
  }

  lemma EarlierThanKept(events: seq<SeriesEvent>, times: seq<int>, kept: seq<int>, time: int, past: int, t: int)
    requires SortedSeries(events, times) && At(past) in events && past !in kept && past != time
    requires t in kept + [time]
    requires forall t :: t in kept ==> t in times
    requires forall t :: t in times ==> t < time
    requires forall t, u :: t in times && t !in kept && u in kept ==> t < u
    requires forall e :: e in events && e.At? ==> e.time <= time
    ensures past < t
  {
    hide Ascending;
    assert At(past).time == past;
    assert t in kept || t == time;
  }

  lemma UpdateKeepsSorted(events: seq<SeriesEvent>, s: Series, maxSize: nat, time: int)
    requires SeriesValid(maxSize, s) && SortedSeries(events, s.times) && NeverBack(events + [At(time)])
    ensures SortedSeries(events + [At(time)], AppendTime(s, maxSize, time).times)
  {
    hide SortedSeries, NeverBack;
    if time in s.times {
      OldTimeSorted(events, s.times, time);
    } else if maxSize > 0 && |s.times| == maxSize {
      NewTimeSorted(events, s.times, time, 1);
    } else {
      NewTimeSorted(events, s.times, time, 0);
      assert s.times[0..] == s.times;
    }
  }

  lemma NeverBackPrefix(events: seq<SeriesEvent>, e: SeriesEvent)
    requires NeverBack(events + [e])
    ensures NeverBack(events)
  {
    assert forall i :: 0 <= i < |events| ==> (events + [e])[i] == events[i];
  }

  lemma {:induction false} SeriesIsSorted(maxSize: nat, events: seq<SeriesEvent>)
    requires NeverBack(events)
    ensures SortedSeries(events, SeriesRun(maxSize, events).times)
  {
    if events != [] {
      var before, e := events[..|events| - 1], events[|events| - 1];
      assert events == before + [e];
      NeverBackPrefix(before, e);
      SeriesIsSorted(maxSize, before);
      SeriesInvariant(maxSize, before);
      var s := SeriesRun(maxSize, before);
      match e
      case At(time) =>
        UpdateKeepsSorted(before, s, maxSize, time);
      case Poll =>
    }
  }

  /** New times are not older than other times. */
  lemma NewIsLater(events: seq<SeriesEvent>, a: int, b: int)
    requires NeverBack(events) && IsNewTime(events, a) && At(b) in events && a < b
    ensures IsNewTime(events, b)
  {
    var m := LastUpdate(events);
    var i :| 0 <= i <= m && events[i] == At(a) && forall p :: i < p < m ==> events[p] != Poll;
    var j :| 0 <= j < |events| && events[j] == At(b);
    assert i < j <= m;
  }

  /** When times never go back, the watcher sees exactly the updated entries, or the last of them for a limit. */
  lemma InOrderWatcherSeesNew(maxSize: nat, events: seq<SeriesEvent>, limit: Option<nat>)
    requires NeverBack(events) && limit != Some(0)
    ensures var s := SeriesRun(maxSize, events);
      var f := FreshOf(s.times, s.tracker);
      SliceTail(s.times, LimitOf(s, limit)) == if limit.Some? then SliceTail(f, limit.value) else f
  {
    SeriesIsSorted(maxSize, events);
    SeriesInvariant(maxSize, events);
    var s := SeriesRun(maxSize, events);
    hide SeriesRun, FreshOf, LastUpdate, IsNewTime;
    forall a, b | a in s.tracker && b in s.times && a < b ensures b in s.tracker {
      NewIsLater(events, a, b);
    }
    forall a, b | a in s.tracker && a !in s.times && b in s.times ensures b in s.tracker {
      NewWasAppended(events, a);
      assert At(a).time == a;
      NewIsLater(events, a, b);
    }
    TailShowsFresh(s.times, s.tracker);
    if limit.Some? {
      LimitedTailIsFresh(s.times, s.tracker, |s.tracker|, limit.value);
    }
  }

  /** Updating an old entry shows the newest one instead. */
  lemma OldUpdateIsMissed()
    ensures var s := SeriesRun(0, [At(1), At(2), Poll, At(1)]);
      SliceTail(s.times, s.newUpdates) == [2] && s.tracker == {1}
  {
    var events := [At(1), At(2), Poll, At(1)];
    assert events[..3] == [At(1), At(2), Poll] && events[..3][..2] == [At(1), At(2)];
    assert [At(1), At(2)][..1] == [At(1)] && [At(1)][..0] == [];
    assert SeriesRun(0, []) == EMPTY_SERIES;
    assert SeriesRun(0, [At(1)]).times == [1] && SeriesRun(0, [At(1)]).keys == {1};
    assert SeriesRun(0, [At(1), At(2)]).times == [1, 2] && SeriesRun(0, [At(1), At(2)]).keys == {1, 2};
    assert SeriesRun(0, events).tracker == {1};
  }

  // ----- the cache object --------------------------------------------------

  /** An entry object; the time is its first component. */
  class Bar {
    const time: int
    var values: seq<real>

    constructor (time: int, values: seq<real>)
      ensures this.time == time && this.values == values
    {
      this.time, this.values := time, values;
    }
  }

  /** The components of an update over those of the cached entry. */
  function Overlay(update: seq<real>, cached: seq<real>): (r: seq<real>)
    ensures |r| == Max(|update|, |cached|)
    ensures forall i :: 0 <= i < |r| ==> r[i] == if i < |update| then update[i] else cached[i]
  {
    update + if |update| < |cached| then cached[|update|..] else []
  }

  ghost function TimesOf(entries: seq<Bar>): (r: seq<int>)
    ensures |r| == |entries| && forall i :: 0 <= i < |r| ==> r[i] == entries[i].time
  {
    seq(|entries|, i requires 0 <= i < |entries| => entries[i].time)
  }

  /** Every entry is the very object the map holds for its time, and the map holds no other. */
  ghost predicate Mapped(entries: seq<Bar>, h: map<int, Bar>) {
    && (forall i, j :: 0 <= i < j < |entries| ==> entries[i].time != entries[j].time)
    && (forall e :: e in entries ==> e.time in h && h[e.time] == e)
    && (forall t :: t in h ==> h[t] in entries && h[t].time == t)
  }

  class ArrayCacheByTimestamp {
    /** 0 stands for no bound. */
    const maxSize: nat
    var entries: seq<Bar>
    var hashmap: map<int, Bar>
    var sizeTracker: set<int>
    var newUpdates: nat
    var clearUpdates: bool

    ghost function View(): Series
      reads this
    {
      Series(TimesOf(entries), hashmap.Keys, sizeTracker, newUpdates, clearUpdates)
    }

    ghost predicate Valid()
      reads this
    {
      Mapped(entries, hashmap)
    }

    constructor (maxSize: nat)
      ensures Valid() && this.maxSize == maxSize && View() == EMPTY_SERIES
    {
      this.maxSize := maxSize;
      entries, hashmap, sizeTracker, newUpdates, clearUpdates := [], map[], {}, 0, false;
    }

    method GetLimit(limit: Option<nat>) returns (r: nat)
      requires Valid()
      modifies this`clearUpdates
      ensures Valid() && View() == old(View()).(clearUpdates := true)
      ensures r == LimitOf(old(View()), limit)
    {
      clearUpdates := true;
      r := if limit.Some? && limit.value < newUpdates then limit.value else newUpdates;
    }

    /** Copies the components of an update into the cached object, unless it is the same object. */
    method MergeInto(reference: Bar, item: Bar)
      modifies reference`values
      ensures reference.values == if reference == item then old(item.values) else Overlay(old(item.values), old(reference.values))
    {
      if reference != item {
        reference.values := Overlay(item.values, reference.values);
      }
    }

    /** Puts a new time at the end, and drops the oldest entry when the array is full. */
    method Push(item: Bar)
      requires Valid() && item.time !in hashmap
      modifies this`entries, this`hashmap
      ensures Valid() && View() == Kept(old(View()), maxSize, item.time)
      ensures item.time in hashmap && hashmap[item.time] == item
      ensures forall t :: t in hashmap && t != item.time ==> t in old(hashmap) && hashmap[t] == old(hashmap)[t]
    {
      hide TimesOf, Mapped;
      PushedMapped(entries, hashmap, item);
      hashmap := hashmap[item.time := item];
      if maxSize != 0 && |entries| == maxSize {
        var deleteReference := entries[0];
        entries := entries[1..];
        hashmap := hashmap - {deleteReference.time};
      }
      entries := entries + [item];
    }

    method Track(time: int)
      modifies this`sizeTracker, this`newUpdates, this`clearUpdates
      ensures View() == Tracked(old(View()), time)
    {
      hide TimesOf;
      if clearUpdates {
        clearUpdates := false;
        sizeTracker := {};
      }
      sizeTracker := sizeTracker + {time};
      newUpdates := |sizeTracker|;
    }

    /** A known time keeps its place and its object, which takes over the update; a new time goes to the end. */
    method Append(item: Bar)
      requires Valid()
      modifies this, entries`values
      ensures Valid() && View() == AppendTime(old(View()), maxSize, item.time)
      ensures item.time in hashmap
      ensures forall t :: t in hashmap && t != item.time ==> t in old(hashmap) && hashmap[t] == old(hashmap)[t]
      ensures var kept := hashmap[item.time];
        && kept == (if item.time in old(hashmap) then old(hashmap)[item.time] else item)
        && kept.values == (if kept == item then old(item.values) else Overlay(old(item.values), old(kept.values)))
        && forall e :: e in old(entries) && e != kept ==> e.values == old(e.values)
    {
      hide Overlay, TimesOf;
      if item.time in hashmap {
        var reference := hashmap[item.time];
        MappedFact(entries, hashmap, item.time);
        MergeInto(reference, item);
      } else {
        Push(item);
      }
      Track(item.time);
    }
  }

  lemma MappedFact(entries: seq<Bar>, h: map<int, Bar>, t: int)
    requires Mapped(entries, h) && t in h
    ensures h[t] in entries && h[t].time == t
  {
  }

  /** A new entry at the end, without and with the first one evicted. */
  lemma PushedMapped(entries: seq<Bar>, h: map<int, Bar>, item: Bar)
    requires Mapped(entries, h) && item.time !in h
    ensures Mapped(entries + [item], h[item.time := item])
    ensures TimesOf(entries + [item]) == TimesOf(entries) + [item.time]
    ensures h[item.time := item].Keys == h.Keys + {item.time}
    ensures entries != [] ==>
      var first, next := entries[0].time, h[item.time := item];
      && Mapped(entries[1..] + [item], next - {first})
      && TimesOf(entries[1..] + [item]) == TimesOf(entries)[1..] + [item.time]
      && (next - {first}).Keys == h.Keys + {item.time} - {first} && item.time in next - {first}
  {
    hide TimesOf, Mapped;
    MappedWithLast(entries, h, item);
    if entries != [] {
      MappedKeys(entries, h);
      MappedWithoutFirst(entries, h);
      MappedWithLast(entries[1..], h - {entries[0].time}, item);
      assert h[item.time := item] - {entries[0].time} == (h - {entries[0].time})[item.time := item];
    }
  }

  lemma MappedKeys(entries: seq<Bar>, h: map<int, Bar>)
    requires Mapped(entries, h) && entries != []
    ensures entries[0].time in h
  {
    assert entries[0] in entries;
  }

  lemma MappedWithoutFirst(entries: seq<Bar>, h: map<int, Bar>)
    requires Mapped(entries, h) && entries != []
    ensures Mapped(entries[1..], h - {entries[0].time}) && TimesOf(entries[1..]) == TimesOf(entries)[1..]
  {
    assert entries == [entries[0]] + entries[1..];
    assert entries[0] in entries;
  }

  lemma MappedWithLast(entries: seq<Bar>, h: map<int, Bar>, item: Bar)
    requires Mapped(entries, h) && item.time !in h
    ensures Mapped(entries + [item], h[item.time := item])
    ensures TimesOf(entries + [item]) == TimesOf(entries) + [item.time]
  {
    assert forall i :: 0 <= i < |entries| ==> entries[i] in entries;
  }
}
