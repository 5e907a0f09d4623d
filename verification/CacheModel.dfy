/** What the bounded cache of orders does, on values: recency, eviction, and the accounting of new updates. */
module CacheModel {
  import opened Basics

  type Symbol = string

  type OrderId = string

  datatype Ref = Ref(symbol: Symbol, id: OrderId)

  /** entries: the array; index: the keys of the two-level map; updates: newUpdatesBySymbol; clears: the symbols
      whose clear flag is set. */
  datatype State = State(entries: seq<Ref>, index: set<Ref>, updates: map<Symbol, set<OrderId>>, clears: set<Symbol>,
                         allNewUpdates: nat, clearAllUpdates: bool)

  const EMPTY := State([], {}, map[], {}, 0, false)

  /** findIndex: the first entry with this id, whatever its symbol; the length if there is none. */
  function FindIndex(entries: seq<Ref>, id: OrderId): (k: nat)
    ensures k <= |entries|
    ensures k < |entries| ==> entries[k].id == id
    ensures forall i :: 0 <= i < k ==> entries[i].id != id
  {
    if entries == [] || entries[0].id == id then 0 else 1 + FindIndex(entries[1..], id)
  }

  /** splice (index, 1), where a missing index -1 would remove the last entry. */
  function Spliced(entries: seq<Ref>, id: OrderId): seq<Ref> {
    var k := FindIndex(entries, id);
    if k < |entries| then entries[..k] + entries[k + 1..]
    else if entries == [] then [] else entries[..|entries| - 1]
  }

  /** The array part of append: move to the end, or evict the oldest and push. */
  function Stored(s: State, maxSize: nat, r: Ref): State {
    var known := r in s.index;
    var rest := if known then Spliced(s.entries, r.id) else s.entries;
    var index := s.index + {r};
    if maxSize > 0 && |rest| == maxSize then
      s.(entries := rest[1..] + [r], index := index - {rest[0]})
    else
      s.(entries := rest + [r], index := index)
  }

  /** What was polled as a whole is forgotten. */
  function Cleared(s: State): State {
    if s.clearAllUpdates then s.(clearAllUpdates := false, clears := {}, allNewUpdates := 0, updates := map[]) else s
  }

  /** The ids counted as new for a symbol; none if the symbol was polled. */
  function CountedIds(s: State, symbol: Symbol): set<OrderId> {
    if symbol in s.updates && symbol !in s.clears then s.updates[symbol] else {}
  }

  /** The accounting part of append. */
  function Counted(s: State, r: Ref): State {
    var s1 := Cleared(s);
    var ids := CountedIds(s1, r.symbol);
    s1.(clears := s1.clears - {r.symbol},
        updates := s1.updates[r.symbol := ids + {r.id}],
        allNewUpdates := s1.allNewUpdates + if r.id in ids then 0 else 1)
  }

  function Append(s: State, maxSize: nat, r: Ref): State {
    Counted(Stored(s, maxSize, r), r)
  }

  function MinLimit(n: nat, limit: Option<nat>): Option<nat> {
    if limit.Some? && limit.value < n then limit else Some(n)
  }

  /** getLimit: how many entries a watcher should see; it marks the counters for clearing. */
  function GetLimit(s: State, symbol: Option<Symbol>, limit: Option<nat>): (State, Option<nat>) {
    if symbol.None? then
      (s.(clearAllUpdates := true), MinLimit(s.allNewUpdates, limit))
    else
      (s.(clears := s.clears + {symbol.value}),
       if symbol.value in s.updates then MinLimit(|s.updates[symbol.value]|, limit) else limit)
  }

  function OfSymbol(entries: seq<Ref>, symbol: Symbol): seq<Ref> {
    if entries == [] then []
    else
      var l := entries[|entries| - 1];
      OfSymbol(entries[..|entries| - 1], symbol) + if l.symbol == symbol then [l] else []
  }

  lemma OfSymbolMore(entries: seq<Ref>, r: Ref, symbol: Symbol)
    ensures OfSymbol(entries + [r], symbol) == OfSymbol(entries, symbol) + if r.symbol == symbol then [r] else []
    ensures OfSymbol([], symbol) == []
  {
    assert (entries + [r])[..|entries|] == entries;
  }

  /** The filter takes every entry by itself and keeps their order. */
  lemma {:induction false} OfSymbolParts(a: seq<Ref>, b: seq<Ref>, symbol: Symbol)
    ensures OfSymbol(a + b, symbol) == OfSymbol(a, symbol) + OfSymbol(b, symbol)
  {
    hide OfSymbol;
    if b == [] {
      OfSymbolMore(a, Ref("", ""), symbol);
      assert a + b == a;
    } else {
      var front, r := b[..|b| - 1], b[|b| - 1];
      OfSymbolParts(a, front, symbol);
      OfSymbolMore(a + front, r, symbol);
      OfSymbolMore(front, r, symbol);
      assert a + b == a + front + [r] && b == front + [r];
    }
  }

  /** Array.prototype.slice (-limit): slice (-0) is slice (0), the whole array. */
  function SliceTail<T>(a: seq<T>, limit: nat): seq<T> {
    if limit == 0 || limit >= |a| then a else a[|a| - limit..]
  }

  /** The last entries, as many as the limit says and there are; all for a limit of 0. */
  lemma SliceTailIs<T>(a: seq<T>, limit: nat)
    ensures var r := SliceTail(a, limit);
      && |r| == (if limit == 0 then |a| else Min(limit, |a|))
      && forall i :: 0 <= i < |r| ==> r[i] == a[|a| - |r| + i]
  {
  }

  /** filterByValueSinceLimit on the symbol, with tail set and no since. */
  function TailFilter(entries: seq<Ref>, symbol: Option<Symbol>, limit: Option<nat>): seq<Ref> {
    var a := if symbol.Some? then OfSymbol(entries, symbol.value) else entries;
    if limit.Some? then SliceTail(a, limit.value) else a
  }

  /** An append of a known order takes out the first entry with its id, whatever its symbol, or the last entry if none has
      it; then the oldest entry goes if the array is full, and the order comes last. */
  lemma KnownIsMoved(s: State, maxSize: nat, r: Ref, k: nat)
    requires r in s.index && s.entries != [] && k < |s.entries|
    requires (forall i :: 0 <= i < k ==> s.entries[i].id != r.id)
    requires s.entries[k].id == r.id || (k == |s.entries| - 1 && s.entries[k].id != r.id)
    ensures var before, behind, s' := s.entries[..k], s.entries[k + 1..], Append(s, maxSize, r);
      if maxSize == 0 || |s.entries| - 1 != maxSize then
        s'.entries == before + behind + [r] && s'.index == s.index
      else
        s'.entries == (before + behind)[1..] + [r] && s'.index == s.index - {(before + behind)[0]}
  {
    hide FindIndex;
    FindIndexIs(s.entries, r.id, if s.entries[k].id == r.id then k else |s.entries|);
  }

  lemma FindIndexIs(entries: seq<Ref>, id: OrderId, k: nat)
    requires k <= |entries| && (forall i :: 0 <= i < k ==> entries[i].id != id)
    requires k < |entries| ==> entries[k].id == id
    ensures FindIndex(entries, id) == k
  {
  }

  // ----- runs --------------------------------------------------------------

  datatype Event = Appended(ref: Ref) | Polled(symbol: Option<Symbol>)

  function After(s: State, maxSize: nat, e: Event): State {
    match e
    case Appended(r) => Append(s, maxSize, r)
    case Polled(symbol) => GetLimit(s, symbol, None).0
  }

  function Run(maxSize: nat, events: seq<Event>): State {
    if events == [] then EMPTY
    else After(Run(maxSize, events[..|events| - 1]), maxSize, events[|events| - 1])
  }

  /** An id belongs to one symbol only. */
  ghost predicate OneSymbolPerId(events: seq<Event>) {
    forall i, j :: 0 <= i < |events| && 0 <= j < |events| ==> SameOrder(events[i], events[j])
  }

  predicate SameOrder(a: Event, b: Event) {
    a.Appended? && b.Appended? && a.ref.id == b.ref.id ==> a == b
  }

  /** findIndex, looking for a known order by its id, hits the order's own entry. */
  predicate FindsOwnEntry(s: State, r: Ref) {
    r in s.index ==> var k := FindIndex(s.entries, r.id); k < |s.entries| && s.entries[k] == r
  }

  /** Every append of the run finds its own entry. */
  predicate AlwaysFindsOwn(maxSize: nat, events: seq<Event>) {
    events == [] ||
      var before, e := events[..|events| - 1], events[|events| - 1];
      AlwaysFindsOwn(maxSize, before) && (e.Appended? ==> FindsOwnEntry(Run(maxSize, before), e.ref))
  }

  /** The last append of an order, -1 if there is none. */
  function LastAppend(events: seq<Event>, r: Ref): (k: int)
    ensures -1 <= k < |events|
  {
    if events == [] then -1
    else if events[|events| - 1] == Appended(r) then |events| - 1
    else LastAppend(events[..|events| - 1], r)
  }

  /** The cache holds the most recently updated orders, oldest first, and its index holds the same ones. */
  ghost predicate IsRecent(maxSize: nat, events: seq<Event>, s: State) {
    && (forall i, j :: 0 <= i < j < |s.entries| ==> LastAppend(events, s.entries[i]) < LastAppend(events, s.entries[j]))
    && (forall r :: r in s.entries ==> LastAppend(events, r) >= 0)
    && (forall r, e :: LastAppend(events, r) >= 0 && r !in s.entries && e in s.entries ==>
      LastAppend(events, r) < LastAppend(events, e))
    && (maxSize > 0 ==> |s.entries| <= maxSize)
    && (maxSize == 0 || |s.entries| < maxSize ==> forall r :: LastAppend(events, r) >= 0 ==> r in s.entries)
    && (forall r :: r in s.index <==> r in s.entries)
  }

  lemma LastAppendStep(events: seq<Event>, e: Event, r: Ref)
    ensures LastAppend(events + [e], r) == if e == Appended(r) then |events| else LastAppend(events, r)
  {
    assert (events + [e])[..|events|] == events;
  }

  lemma {:induction false} LastAppendIs(events: seq<Event>, r: Ref)
    requires LastAppend(events, r) >= 0
    ensures events[LastAppend(events, r)] == Appended(r)
  {
    if events[|events| - 1] != Appended(r) {
      LastAppendIs(events[..|events| - 1], r);
    }
  }

  /** With one symbol per id, every append finds its own entry. */
  lemma OneSymbolFindsOwn(events: seq<Event>, s: State, maxSize: nat, r: Ref)
    requires IsRecent(maxSize, events, s) && OneSymbolPerId(events + [Appended(r)])
    ensures FindsOwnEntry(s, r)
  {
    if r in s.index {
      var j :| 0 <= j < |s.entries| && s.entries[j] == r;
      var k := FindIndex(s.entries, r.id);
      assert k <= j;
      var all := events + [Appended(r)];
      LastAppendIs(events, s.entries[k]);
      assert all[LastAppend(events, s.entries[k])] == Appended(s.entries[k]);
      assert all[|events|] == Appended(r);
    }
  }

  // ----- recency -----------------------------------------------------------

  /** Without r, with the relative order kept. */
  ghost predicate IsWithout(rest: seq<Ref>, entries: seq<Ref>, r: Ref) {
    && (forall x :: x in rest <==> x in entries && x != r)
    && |rest| == |entries| - (if r in entries then 1 else 0)
    && (forall i, j :: 0 <= i < j < |rest| ==> Precedes(entries, rest[i], rest[j]))
  }

  ghost predicate Precedes(entries: seq<Ref>, a: Ref, b: Ref) {
    exists i, j :: 0 <= i < j < |entries| && entries[i] == a && entries[j] == b
  }

  ghost predicate Distinct<T>(entries: seq<T>) {
    forall i, j :: 0 <= i < j < |entries| ==> entries[i] != entries[j]
  }

  lemma RemovedAtIsWithout(entries: seq<Ref>, k: nat)
    requires k < |entries| && Distinct(entries)
    ensures IsWithout(entries[..k] + entries[k + 1..], entries, entries[k])
  {
    var rest := entries[..k] + entries[k + 1..];
    forall i, j | 0 <= i < j < |rest| ensures Precedes(entries, rest[i], rest[j]) {
      var i', j' := if i < k then i else i + 1, if j < k then j else j + 1;
      assert entries[i'] == rest[i] && entries[j'] == rest[j];
    }
    forall x | x in entries && x != entries[k] ensures x in rest {
      var j :| 0 <= j < |entries| && entries[j] == x;
      assert rest[if j < k then j else j - 1] == x;
    }
  }

  lemma RestIsWithout(events: seq<Event>, s: State, maxSize: nat, r: Ref)
    requires IsRecent(maxSize, events, s) && FindsOwnEntry(s, r)
    ensures Distinct(s.entries)
    ensures IsWithout(if r in s.index then Spliced(s.entries, r.id) else s.entries, s.entries, r)
  {
    RecentIsDistinct(events, s, maxSize);
    IndexHoldsEntries(events, s, maxSize, r);
    hide IsRecent, IsWithout, Distinct, FindIndex;
    if r in s.index {
      RemovedAtIsWithout(s.entries, FindIndex(s.entries, r.id));
    } else {
      WithoutNothing(s.entries, r);
    }
  }

  lemma IndexHoldsEntries(events: seq<Event>, s: State, maxSize: nat, r: Ref)
    requires IsRecent(maxSize, events, s)
    ensures r in s.index <==> r in s.entries
  {
    hide LastAppend;
  }

  lemma WithoutNothing(entries: seq<Ref>, r: Ref)
    requires r !in entries
    ensures IsWithout(entries, entries, r)
  {
  }

  lemma RecentIsDistinct(events: seq<Event>, s: State, maxSize: nat)
    requires IsRecent(maxSize, events, s)
    ensures Distinct(s.entries)
  {
  }

  /** The entries kept in front of the new one are recent too. */
  ghost predicate IsRecentRest(maxSize: nat, events: seq<Event>, s: State, rest: seq<Ref>, r: Ref) {
    && r !in rest
    && (forall i, j :: 0 <= i < j < |rest| ==> LastAppend(events, rest[i]) < LastAppend(events, rest[j]))
    && (forall x :: x in rest ==> LastAppend(events, x) >= 0)
    && (forall x, e :: LastAppend(events, x) >= 0 && x != r && x !in rest && e in rest ==>
      LastAppend(events, x) < LastAppend(events, e))
    && (maxSize > 0 ==> |rest| <= maxSize)
    && (maxSize == 0 || |rest| + 1 < maxSize ==> forall x :: LastAppend(events, x) >= 0 && x != r ==> x in rest)
    && (forall x :: x in s.index && x != r <==> x in rest)
  }

  lemma RestIsRecent(maxSize: nat, events: seq<Event>, s: State, rest: seq<Ref>, r: Ref)
    requires IsRecent(maxSize, events, s) && IsWithout(rest, s.entries, r)
    ensures IsRecentRest(maxSize, events, s, rest, r)
  {
    hide LastAppend;
    forall i, j | 0 <= i < j < |rest| ensures LastAppend(events, rest[i]) < LastAppend(events, rest[j]) {
      assert Precedes(s.entries, rest[i], rest[j]);
    }
  }

  ghost predicate AppendSeen(events: seq<Event>, r: Ref) {
    forall x :: LastAppend(events + [Appended(r)], x) == if x == r then |events| else LastAppend(events, x)
  }

  lemma AppendIsSeen(events: seq<Event>, r: Ref)
    ensures AppendSeen(events, r)
  {
    hide LastAppend;
    forall x ensures LastAppend(events + [Appended(r)], x) == if x == r then |events| else LastAppend(events, x) {
      LastAppendStep(events, Appended(r), x);
    }
  }

  lemma OwnStoredIsRecent(maxSize: nat, events: seq<Event>, s: State, r: Ref)
    requires IsRecent(maxSize, events, s) && FindsOwnEntry(s, r)
    ensures IsRecent(maxSize, events + [Appended(r)], Stored(s, maxSize, r))
  {
    hide LastAppend, Spliced, IsWithout, FindsOwnEntry, AppendSeen, IsRecent, IsRecentRest;
    var rest := if r in s.index then Spliced(s.entries, r.id) else s.entries;
    RestIsWithout(events, s, maxSize, r);
    RestIsRecent(maxSize, events, s, rest, r);
    AppendIsSeen(events, r);
    if maxSize > 0 && |rest| == maxSize {
      EvictThenPush(maxSize, events, s, rest, r);
    } else {
      PushOnly(maxSize, events, s, rest, r);
    }
  }

  /** Splicing another entry out leaves the known order where it was, and pushing it again doubles it. */
  lemma OtherStoredDoubles(maxSize: nat, events: seq<Event>, s: State, r: Ref)
    requires IsRecent(maxSize, events, s) && !FindsOwnEntry(s, r)
    ensures !Distinct(Stored(s, maxSize, r).entries)
  {
    hide LastAppend;
    var j :| 0 <= j < |s.entries| && s.entries[j] == r;
    var k := FindIndex(s.entries, r.id);
    assert k < j;
    var rest := Spliced(s.entries, r.id);
    assert rest == s.entries[..k] + s.entries[k + 1..] && rest[j - 1] == r;
    var entries := Stored(s, maxSize, r).entries;
    assert entries == rest + [r];
    assert entries[j - 1] == r && entries[|rest|] == r;
  }

  /** One append keeps the cache the most recent orders if, and only if, it finds its own entry. */
  lemma StoredIsRecent(maxSize: nat, events: seq<Event>, s: State, r: Ref)
    requires IsRecent(maxSize, events, s)
    ensures IsRecent(maxSize, events + [Appended(r)], Stored(s, maxSize, r)) <==> FindsOwnEntry(s, r)
  {
    hide *;
    if FindsOwnEntry(s, r) {
      OwnStoredIsRecent(maxSize, events, s, r);
    } else {
      OtherStoredDoubles(maxSize, events, s, r);
      if IsRecent(maxSize, events + [Appended(r)], Stored(s, maxSize, r)) {
        RecentIsDistinct(events + [Appended(r)], Stored(s, maxSize, r), maxSize);
      }
    }
  }

  lemma PushOnly(maxSize: nat, events: seq<Event>, s: State, rest: seq<Ref>, r: Ref)
    requires IsRecentRest(maxSize, events, s, rest, r) && !(maxSize > 0 && |rest| == maxSize)
    requires AppendSeen(events, r)
    ensures IsRecent(maxSize, events + [Appended(r)], s.(entries := rest + [r], index := s.index + {r}))
  {
    hide LastAppend;
  }

  lemma EvictThenPush(maxSize: nat, events: seq<Event>, s: State, rest: seq<Ref>, r: Ref)
    requires IsRecentRest(maxSize, events, s, rest, r) && maxSize > 0 && |rest| == maxSize
    requires AppendSeen(events, r)
    ensures IsRecent(maxSize, events + [Appended(r)],
                     s.(entries := rest[1..] + [r], index := s.index + {r} - {rest[0]}))
  {
    hide LastAppend, IsRecent, AppendSeen, IsRecentRest;
    TailIsRecent(maxSize, events, s, rest, r);
    PushOnly(maxSize, events, s.(index := s.index - {rest[0]}), rest[1..], r);
    assert rest[0] != r by { RestLacks(maxSize, events, s, rest, r); }
    assert s.index + {r} - {rest[0]} == s.index - {rest[0]} + {r};
  }

  lemma RestLacks(maxSize: nat, events: seq<Event>, s: State, rest: seq<Ref>, r: Ref)
    requires IsRecentRest(maxSize, events, s, rest, r)
    ensures r !in rest
  {
  }

  lemma TailIsRecent(maxSize: nat, events: seq<Event>, s: State, rest: seq<Ref>, r: Ref)
    requires IsRecentRest(maxSize, events, s, rest, r) && maxSize > 0 && |rest| == maxSize
    ensures IsRecentRest(maxSize, events, s.(index := s.index - {rest[0]}), rest[1..], r)
  {
    hide LastAppend;
    var tail := rest[1..];
    assert forall j :: 0 <= j < |tail| ==> tail[j] == rest[j + 1];
    assert forall x :: x in rest <==> x == rest[0] || x in tail;
    forall e | e in tail ensures LastAppend(events, rest[0]) < LastAppend(events, e) {
      var j :| 0 <= j < |tail| && tail[j] == e;
      assert e == rest[j + 1];
    }
  }

  // ----- the accounting ----------------------------------------------------

  /** Among the entries of a symbol, those in ids are the last ones. */
  ghost predicate IsSuffix(entries: seq<Ref>, symbol: Symbol, ids: set<OrderId>) {
    forall i, j :: 0 <= i < j < |entries| && entries[i].symbol == entries[j].symbol == symbol && entries[i].id in ids
      ==> entries[j].id in ids
  }

  ghost predicate AllCached(entries: seq<Ref>, symbol: Symbol, ids: set<OrderId>) {
    forall x :: x in ids ==> Ref(symbol, x) in entries
  }

  ghost predicate AllIn(entries: seq<Ref>, symbol: Symbol, ids: set<OrderId>) {
    forall i :: 0 <= i < |entries| && entries[i].symbol == symbol ==> entries[i].id in ids
  }

  /** An id of the set may have been evicted, but then every older entry of the symbol has been evicted too. */
  ghost predicate IsAccounted(entries: seq<Ref>, symbol: Symbol, ids: set<OrderId>) {
    IsSuffix(entries, symbol, ids) && (AllCached(entries, symbol, ids) || AllIn(entries, symbol, ids))
  }

  ghost predicate Accounted(s: State) {
    forall symbol :: symbol in s.updates ==> s.updates[symbol] != {} && IsAccounted(s.entries, symbol, s.updates[symbol])
  }

  lemma WithoutIsAccounted(entries: seq<Ref>, rest: seq<Ref>, r: Ref, symbol: Symbol, ids: set<OrderId>)
    requires IsAccounted(entries, symbol, ids) && IsWithout(rest, entries, r)
    ensures IsSuffix(rest, symbol, ids)
    ensures (forall x :: x in ids && Ref(symbol, x) != r ==> Ref(symbol, x) in rest) || AllIn(rest, symbol, ids)
  {
    forall i, j | 0 <= i < j < |rest| && rest[i].symbol == rest[j].symbol == symbol && rest[i].id in ids
      ensures rest[j].id in ids
    {
      assert Precedes(entries, rest[i], rest[j]);
    }
    if AllIn(entries, symbol, ids) {
      forall i | 0 <= i < |rest| && rest[i].symbol == symbol ensures rest[i].id in ids {
        assert rest[i] in entries;
      }
    }
  }

  /** Evicting the oldest entry of the rest. */
  lemma TailIsAccounted(rest: seq<Ref>, r: Ref, symbol: Symbol, ids: set<OrderId>)
    requires rest != [] && IsSuffix(rest, symbol, ids)
    requires (forall x :: x in ids && Ref(symbol, x) != r ==> Ref(symbol, x) in rest) || AllIn(rest, symbol, ids)
    ensures IsSuffix(rest[1..], symbol, ids)
    ensures (forall x :: x in ids && Ref(symbol, x) != r ==> Ref(symbol, x) in rest[1..]) || AllIn(rest[1..], symbol, ids)
  {
    var tail := rest[1..];
    assert forall j :: 0 <= j < |tail| ==> tail[j] == rest[j + 1];
    if rest[0].symbol == symbol && rest[0].id in ids {
      assert AllIn(tail, symbol, ids);
    } else if !AllIn(rest, symbol, ids) {
      assert forall x :: x in ids && Ref(symbol, x) != r ==> Ref(symbol, x) in tail by {
        assert rest == [rest[0]] + tail;
      }
    }
  }

  lemma PushedIsAccounted(front: seq<Ref>, r: Ref, symbol: Symbol, ids: set<OrderId>, ids': set<OrderId>)
    requires r !in front && IsSuffix(front, symbol, ids)
    requires (forall x :: x in ids && Ref(symbol, x) != r ==> Ref(symbol, x) in front) || AllIn(front, symbol, ids)
    requires ids' == if symbol == r.symbol then ids + {r.id} else ids
    ensures IsAccounted(front + [r], symbol, ids')
  {
    var all := front + [r];
    forall i, j | 0 <= i < j < |all| && all[i].symbol == all[j].symbol == symbol && all[i].id in ids'
      ensures all[j].id in ids'
    {
      assert all[i] == front[i] && front[i] in front;
    }
    if !AllIn(front, symbol, ids) {
      forall x | x in ids' ensures Ref(symbol, x) in all {
        if Ref(symbol, x) == r {
          assert all[|front|] == r;
        }
      }
    }
  }

  lemma NothingIsAccounted(front: seq<Ref>, r: Ref, symbol: Symbol)
    ensures IsSuffix(front, symbol, {}) && forall x :: x in {} && Ref(symbol, x) != r ==> Ref(symbol, x) in front
  {
  }

  /** What stays in front of the new entry. */
  function Front(s: State, maxSize: nat, r: Ref): seq<Ref> {
    var rest := if r in s.index then Spliced(s.entries, r.id) else s.entries;
    if maxSize > 0 && |rest| == maxSize then rest[1..] else rest
  }

  lemma FrontIsAccounted(maxSize: nat, events: seq<Event>, s: State, r: Ref, symbol: Symbol, ids: set<OrderId>)
    requires IsRecent(maxSize, events, s) && FindsOwnEntry(s, r)
    requires IsAccounted(s.entries, symbol, ids)
    ensures var front := Front(s, maxSize, r);
      && IsSuffix(front, symbol, ids)
      && ((forall x :: x in ids && Ref(symbol, x) != r ==> Ref(symbol, x) in front) || AllIn(front, symbol, ids))
  {
    hide IsRecent, FindsOwnEntry, Spliced, LastAppend, IsAccounted, IsSuffix, AllIn;
    var rest := if r in s.index then Spliced(s.entries, r.id) else s.entries;
    RestIsWithout(events, s, maxSize, r);
    WithoutIsAccounted(s.entries, rest, r, symbol, ids);
    if maxSize > 0 && |rest| == maxSize {
      TailIsAccounted(rest, r, symbol, ids);
    }
  }

  lemma FrontLacks(maxSize: nat, events: seq<Event>, s: State, r: Ref)
    requires IsRecent(maxSize, events, s) && FindsOwnEntry(s, r)
    ensures r !in Front(s, maxSize, r)
  {
    RestIsWithout(events, s, maxSize, r);
  }

  lemma AppendIsAccounted(maxSize: nat, events: seq<Event>, s: State, r: Ref)
    requires IsRecent(maxSize, events, s) && FindsOwnEntry(s, r) && Accounted(s)
    ensures Accounted(Append(s, maxSize, r))
  {
    hide IsRecent, FindsOwnEntry, Spliced, IsAccounted, IsSuffix, AllIn;
    var front, s' := Front(s, maxSize, r), Append(s, maxSize, r);
    assert s'.entries == front + [r];
    FrontLacks(maxSize, events, s, r);
    hide Front;
    forall symbol | symbol in s'.updates
      ensures s'.updates[symbol] != {} && IsAccounted(s'.entries, symbol, s'.updates[symbol])
    {
      var ids := if symbol == r.symbol && (s.clearAllUpdates || symbol in s.clears || symbol !in s.updates) then {}
                 else s.updates[symbol];
      if ids == {} {
        NothingIsAccounted(front, r, symbol);
      } else {
        FrontIsAccounted(maxSize, events, s, r, symbol, ids);
      }
      PushedIsAccounted(front, r, symbol, ids, s'.updates[symbol]);
    }
  }

  // ----- the tail filter ---------------------------------------------------

  /** The entries of a symbol whose ids are in the set, in order. */
  function NewOf(entries: seq<Ref>, symbol: Symbol, ids: set<OrderId>): seq<Ref> {
    if entries == [] then []
    else
      var l := entries[|entries| - 1];
      NewOf(entries[..|entries| - 1], symbol, ids) + if l.symbol == symbol && l.id in ids then [l] else []
  }

  function IdSet(entries: seq<Ref>): set<OrderId> {
    if entries == [] then {} else IdSet(entries[..|entries| - 1]) + {entries[|entries| - 1].id}
  }

  lemma {:induction false} IdSetContains(entries: seq<Ref>, x: OrderId)
    ensures x in IdSet(entries) <==> exists i :: 0 <= i < |entries| && entries[i].id == x
  {
    if entries != [] {
      IdSetContains(entries[..|entries| - 1], x);
      assert entries[|entries| - 1].id in IdSet(entries);
    }
  }

  lemma {:induction false} NewOfContains(entries: seq<Ref>, symbol: Symbol, ids: set<OrderId>, r: Ref)
    ensures r in NewOf(entries, symbol, ids) <==> r in entries && r.symbol == symbol && r.id in ids
  {
    if entries != [] {
      NewOfContains(entries[..|entries| - 1], symbol, ids, r);
      assert entries == entries[..|entries| - 1] + [entries[|entries| - 1]];
    }
  }

  lemma {:induction false} NewOfSize(entries: seq<Ref>, symbol: Symbol, ids: set<OrderId>)
    requires Distinct(entries)
    ensures |NewOf(entries, symbol, ids)| == |IdSet(NewOf(entries, symbol, ids))|
  {
    if entries != [] {
      var front, l := entries[..|entries| - 1], entries[|entries| - 1];
      NewOfSize(front, symbol, ids);
      var ns := NewOf(front, symbol, ids);
      if l.symbol == symbol && l.id in ids {
        assert (ns + [l])[..|ns + [l]| - 1] == ns;
        IdSetContains(ns, l.id);
        forall i | 0 <= i < |ns| ensures ns[i].id != l.id {
          NewOfContains(front, symbol, ids, ns[i]);
          assert ns[i] in front;
        }
      } else {
        assert ns + [] == ns;
      }
    }
  }

  /** When the set's entries come last, they are the tail of the symbol's entries. */
  lemma {:induction false} NewIsTail(entries: seq<Ref>, symbol: Symbol, ids: set<OrderId>)
    requires IsSuffix(entries, symbol, ids)
    ensures var es, ns := OfSymbol(entries, symbol), NewOf(entries, symbol, ids);
      |ns| <= |es| && ns == es[|es| - |ns|..]
    ensures AllIn(entries, symbol, ids) ==> NewOf(entries, symbol, ids) == OfSymbol(entries, symbol)
  {
    if entries != [] {
      var front, l := entries[..|entries| - 1], entries[|entries| - 1];
      NewIsTail(front, symbol, ids);
      if l.symbol == symbol && l.id !in ids {
        NothingNew(front, symbol, ids, l);
      }
    }
  }

  lemma NothingNew(front: seq<Ref>, symbol: Symbol, ids: set<OrderId>, l: Ref)
    requires IsSuffix(front + [l], symbol, ids) && l.symbol == symbol && l.id !in ids
    ensures NewOf(front, symbol, ids) == []
  {
    forall i | 0 <= i < |front| && front[i].symbol == symbol ensures front[i].id !in ids {
      assert (front + [l])[i] == front[i] && (front + [l])[|front|] == l;
    }
    NoneIn(front, symbol, ids);
  }

  lemma {:induction false} NoneIn(entries: seq<Ref>, symbol: Symbol, ids: set<OrderId>)
    requires forall i :: 0 <= i < |entries| && entries[i].symbol == symbol ==> entries[i].id !in ids
    ensures NewOf(entries, symbol, ids) == []
  {
    if entries != [] {
      NoneIn(entries[..|entries| - 1], symbol, ids);
    }
  }

  /** A tail of as many entries as the set has ids is exactly the set's cached entries. */
  lemma TailIsNew(entries: seq<Ref>, symbol: Symbol, ids: set<OrderId>)
    requires Distinct(entries) && IsAccounted(entries, symbol, ids) && ids != {}
    ensures SliceTail(OfSymbol(entries, symbol), |ids|) == NewOf(entries, symbol, ids)
  {
    hide OfSymbol, NewOf, IdSet, Distinct, IsSuffix, AllIn;
    var es, ns := OfSymbol(entries, symbol), NewOf(entries, symbol, ids);
    NewIsTail(entries, symbol, ids);
    NewOfSize(entries, symbol, ids);
    NewIdsAreIds(entries, symbol, ids);
    SubsetSize(IdSet(ns), ids);
    if AllCached(entries, symbol, ids) {
      CachedIdsAreNew(entries, symbol, ids);
      assert IdSet(ns) == ids;
    }
  }

  lemma NewIdsAreIds(entries: seq<Ref>, symbol: Symbol, ids: set<OrderId>)
    ensures IdSet(NewOf(entries, symbol, ids)) <= ids
  {
    hide NewOf, IdSet;
    var ns := NewOf(entries, symbol, ids);
    forall x | x in IdSet(ns) ensures x in ids {
      IdSetContains(ns, x);
      var i :| 0 <= i < |ns| && ns[i].id == x;
      NewOfContains(entries, symbol, ids, ns[i]);
    }
  }

  lemma CachedIdsAreNew(entries: seq<Ref>, symbol: Symbol, ids: set<OrderId>)
    requires AllCached(entries, symbol, ids)
    ensures ids <= IdSet(NewOf(entries, symbol, ids))
  {
    hide NewOf, IdSet;
    var ns := NewOf(entries, symbol, ids);
    forall x | x in ids ensures x in IdSet(ns) {
      IdSetContains(ns, x);
      NewOfContains(entries, symbol, ids, Ref(symbol, x));
      var i :| 0 <= i < |ns| && ns[i] == Ref(symbol, x);
      assert ns[i].id == x;
    }
  }

  // ----- what the sets of new updates mean over a run ----------------------

  predicate Polls(e: Event, symbol: Symbol) {
    e.Polled? && (e.symbol == None || e.symbol == Some(symbol))
  }

  predicate Touches(e: Event, symbol: Symbol) {
    e.Appended? && e.ref.symbol == symbol
  }

  /** The last append for a symbol, -1 if there is none. */
  function LastOf(events: seq<Event>, symbol: Symbol): (k: int)
    ensures -1 <= k < |events|
    ensures k >= 0 ==> Touches(events[k], symbol)
    ensures forall i :: k < i < |events| ==> !Touches(events[i], symbol)
  {
    if events == [] then -1
    else if Touches(events[|events| - 1], symbol) then |events| - 1
    else LastOf(events[..|events| - 1], symbol)
  }

  /** Was there a poll for this symbol behind position k and in front of position n? */
  ghost predicate PolledBetween(events: seq<Event>, symbol: Symbol, k: int, n: int)
    requires n <= |events|
  {
    exists i :: 0 <= i && k < i < n && Polls(events[i], symbol)
  }

  /** Updated since the last poll that came before the symbol's last update. */
  ghost predicate IsNew(events: seq<Event>, symbol: Symbol, x: OrderId) {
    var k := LastAppend(events, Ref(symbol, x));
    k >= 0 && !PolledBetween(events, symbol, k, LastOf(events, symbol))
  }

  /** How the sets and flags of the cache relate to the run. */
  ghost predicate Tracks(events: seq<Event>, s: State, symbol: Symbol) {
    var polled := PolledBetween(events, symbol, LastOf(events, symbol), |events|);
    && (symbol in s.updates ==> forall x :: x in s.updates[symbol] <==> IsNew(events, symbol, x))
    && (symbol in s.updates ==> (s.clearAllUpdates || symbol in s.clears <==> polled))
    && (symbol !in s.updates && LastOf(events, symbol) >= 0 ==> polled)
    && (s.clearAllUpdates ==> polled)
  }

  lemma TouchStep(events: seq<Event>, e: Event, symbol: Symbol)
    ensures LastOf(events + [e], symbol) == if Touches(e, symbol) then |events| else LastOf(events, symbol)
  {
    assert (events + [e])[..|events|] == events;
  }

  lemma PolledStep(events: seq<Event>, e: Event, symbol: Symbol, k: int, n: int)
    requires n <= |events|
    ensures PolledBetween(events + [e], symbol, k, n) <==> PolledBetween(events, symbol, k, n)
    ensures PolledBetween(events + [e], symbol, k, |events| + 1) <==>
      PolledBetween(events, symbol, k, |events|) || (k < |events| && Polls(e, symbol))
  {
    var all := events + [e];
    assert all[|events|] == e;
    assert forall i :: 0 <= i < |events| ==> all[i] == events[i];
    if PolledBetween(all, symbol, k, |events| + 1) && !(k < |events| && Polls(e, symbol)) {
      var i :| 0 <= i && k < i < |events| + 1 && Polls(all[i], symbol);
      assert Polls(events[i], symbol);
    }
    if PolledBetween(events, symbol, k, |events|) {
      var i :| 0 <= i && k < i < |events| && Polls(events[i], symbol);
      assert Polls(all[i], symbol);
    }
    if PolledBetween(events, symbol, k, n) {
      var i :| 0 <= i && k < i < n && Polls(events[i], symbol);
      assert Polls(all[i], symbol);
    }
    if PolledBetween(all, symbol, k, n) {
      var i :| 0 <= i && k < i < n && Polls(all[i], symbol);
      assert Polls(events[i], symbol);
    }
  }

  /** An event that is no update for the symbol changes none of its new ids. */
  lemma NewStep(events: seq<Event>, e: Event, symbol: Symbol, x: OrderId)
    requires !Touches(e, symbol)
    ensures IsNew(events + [e], symbol, x) <==> IsNew(events, symbol, x)
  {
    hide LastAppend, LastOf, PolledBetween;
    LastAppendStep(events, e, Ref(symbol, x));
    TouchStep(events, e, symbol);
    PolledStep(events, e, symbol, LastAppend(events, Ref(symbol, x)), LastOf(events, symbol));
  }

  lemma {:induction false} LastAppendBound(events: seq<Event>, r: Ref)
    ensures LastAppend(events, r) <= LastOf(events, r.symbol)
  {
    if events != [] {
      LastAppendBound(events[..|events| - 1], r);
    }
  }

  lemma PolledSplit(events: seq<Event>, symbol: Symbol, k: int, m: int)
    requires k <= m <= |events|
    requires m >= 0 && m < |events| ==> !Polls(events[m], symbol)
    ensures PolledBetween(events, symbol, k, |events|) <==>
      PolledBetween(events, symbol, k, m) || PolledBetween(events, symbol, m, |events|)
  {
    if PolledBetween(events, symbol, k, |events|) {
      var i :| 0 <= i && k < i < |events| && Polls(events[i], symbol);
      assert i != m;
    }
  }

  /** An update for the symbol: new are this id and, unless there was a poll, what was new before. */
  lemma NewAfterUpdate(events: seq<Event>, symbol: Symbol, id: OrderId, x: OrderId)
    ensures IsNew(events + [Appended(Ref(symbol, id))], symbol, x) <==>
      x == id || (IsNew(events, symbol, x) && !PolledBetween(events, symbol, LastOf(events, symbol), |events|))
  {
    hide LastAppend, LastOf, PolledBetween;
    var e := Appended(Ref(symbol, id));
    var k := LastAppend(events, Ref(symbol, x));
    LastAppendStep(events, e, Ref(symbol, x));
    LastAppendBound(events, Ref(symbol, x));
    TouchStep(events, e, symbol);
    PolledStep(events, e, symbol, k, |events|);
    NotPolledAtUpdate(events, symbol);
    PolledSplit(events, symbol, k, LastOf(events, symbol));
    if x == id {
      NothingBetween(events + [e], symbol, |events|);
    }
  }

  lemma NotPolledAtUpdate(events: seq<Event>, symbol: Symbol)
    ensures var m := LastOf(events, symbol); 0 <= m < |events| ==> !Polls(events[m], symbol)
  {
  }

  lemma NothingBetween(events: seq<Event>, symbol: Symbol, k: nat)
    requires k <= |events|
    ensures !PolledBetween(events, symbol, k, k)
  {
  }

  lemma UpdateTracks(events: seq<Event>, s: State, maxSize: nat, r: Ref, symbol: Symbol)
    requires Tracks(events, s, symbol)
    ensures Tracks(events + [Appended(r)], Append(s, maxSize, r), symbol)
  {
    hide LastAppend, LastOf, PolledBetween, IsNew, Spliced;
    var e := Appended(r);
    TouchStep(events, e, symbol);
    PolledStep(events, e, symbol, LastOf(events, symbol), |events|);
    if r.symbol == symbol {
      NothingNewPolled(events, e, symbol);
      forall x ensures IsNew(events + [e], symbol, x) <==>
        x == r.id || (IsNew(events, symbol, x) && !PolledBetween(events, symbol, LastOf(events, symbol), |events|))
      {
        NewAfterUpdate(events, symbol, r.id, x);
      }
      NothingBefore(events, symbol);
    } else {
      forall x ensures IsNew(events + [e], symbol, x) <==> IsNew(events, symbol, x) {
        NewStep(events, e, symbol, x);
      }
    }
  }

  lemma NothingNewPolled(events: seq<Event>, e: Event, symbol: Symbol)
    requires Touches(e, symbol)
    ensures !PolledBetween(events + [e], symbol, LastOf(events + [e], symbol), |events| + 1)
  {
    hide LastOf;
    TouchStep(events, e, symbol);
  }

  /** Before its first update nothing is new for a symbol. */
  lemma NothingBefore(events: seq<Event>, symbol: Symbol)
    ensures LastOf(events, symbol) == -1 ==> forall x :: !IsNew(events, symbol, x)
  {
    hide LastAppend, LastOf, PolledBetween;
    forall x ensures LastOf(events, symbol) == -1 ==> !IsNew(events, symbol, x) {
      LastAppendBound(events, Ref(symbol, x));
    }
  }

  lemma PollTracks(events: seq<Event>, s: State, p: Option<Symbol>, symbol: Symbol)
    requires Tracks(events, s, symbol)
    ensures Tracks(events + [Polled(p)], GetLimit(s, p, None).0, symbol)
  {
    hide LastAppend, LastOf, PolledBetween, IsNew;
    var e := Polled(p);
    TouchStep(events, e, symbol);
    PolledStep(events, e, symbol, LastOf(events, symbol), |events|);
    forall x ensures IsNew(events + [e], symbol, x) <==> IsNew(events, symbol, x) {
      NewStep(events, e, symbol, x);
    }
  }

  lemma PollIsRecent(maxSize: nat, events: seq<Event>, s: State, p: Option<Symbol>)
    requires IsRecent(maxSize, events, s)
    ensures IsRecent(maxSize, events + [Polled(p)], GetLimit(s, p, None).0)
  {
    hide LastAppend;
    forall r ensures LastAppend(events + [Polled(p)], r) == LastAppend(events, r) {
      LastAppendStep(events, Polled(p), r);
    }
  }

  lemma OneSymbolPrefix(events: seq<Event>, n: nat)
    requires OneSymbolPerId(events) && n <= |events|
    ensures OneSymbolPerId(events[..n])
  {
  }

  /** For every run whose appends find their own entries: the cache holds exactly the most recent orders, and the
      counters count exactly the new ones. */
  lemma {:induction false} RunInvariant(maxSize: nat, events: seq<Event>, symbol: Symbol)
    requires AlwaysFindsOwn(maxSize, events)
    ensures var s := Run(maxSize, events);
      IsRecent(maxSize, events, s) && Accounted(s) && Tracks(events, s, symbol)
  {
    if events != [] {
      var before, e := events[..|events| - 1], events[|events| - 1];
      assert events == before + [e];
      RunInvariant(maxSize, before, symbol);
      var s := Run(maxSize, before);
      hide Run, IsRecent, Accounted, Tracks, FindsOwnEntry, Append, GetLimit;
      match e
      case Appended(r) =>
        AppendIsRecent(maxSize, before, s, r);
        AppendIsAccounted(maxSize, before, s, r);
        UpdateTracks(before, s, maxSize, r, symbol);
      case Polled(p) =>
        PollIsRecent(maxSize, before, s, p);
        PollIsAccounted(s, p);
        PollTracks(before, s, p, symbol);
    }
  }

  lemma AppendIsRecent(maxSize: nat, events: seq<Event>, s: State, r: Ref)
    requires IsRecent(maxSize, events, s)
    ensures IsRecent(maxSize, events + [Appended(r)], Append(s, maxSize, r)) <==> FindsOwnEntry(s, r)
  {
    hide *;
    StoredIsRecent(maxSize, events, s, r);
    CountedKeepsEntries(Stored(s, maxSize, r), r);
    AppendIs(s, maxSize, r);
    OnlyEntriesMatter(maxSize, events + [Appended(r)], Stored(s, maxSize, r), Append(s, maxSize, r));
  }

  lemma AppendIs(s: State, maxSize: nat, r: Ref)
    ensures Append(s, maxSize, r) == Counted(Stored(s, maxSize, r), r)
  {
  }

  lemma OnlyEntriesMatter(maxSize: nat, events: seq<Event>, s: State, t: State)
    requires s.entries == t.entries && s.index == t.index
    ensures IsRecent(maxSize, events, s) <==> IsRecent(maxSize, events, t)
  {
    hide LastAppend;
  }

  lemma CountedKeepsEntries(s: State, r: Ref)
    ensures Counted(s, r).entries == s.entries && Counted(s, r).index == s.index
  {
  }

  /** The cache holds the most recent orders before and behind every event of the run. */
  ghost predicate AlwaysRecent(maxSize: nat, events: seq<Event>) {
    && IsRecent(maxSize, events, Run(maxSize, events))
    && (events != [] ==> AlwaysRecent(maxSize, events[..|events| - 1]))
  }

  /** Over every run the cache holds exactly the most recent orders if, and only if, every append finds its own entry. */
  lemma {:induction false} RunIsRecent(maxSize: nat, events: seq<Event>)
    ensures AlwaysRecent(maxSize, events) <==> AlwaysFindsOwn(maxSize, events)
  {
    if events != [] {
      var before, e := events[..|events| - 1], events[|events| - 1];
      assert events == before + [e];
      RunIsRecent(maxSize, before);
      var s := Run(maxSize, before);
      if AlwaysRecent(maxSize, before) {
        RecentAtEnd(maxSize, before);
        hide Run, IsRecent, FindsOwnEntry, Append, GetLimit, AlwaysRecent;
        match e
        case Appended(r) => AppendIsRecent(maxSize, before, s, r);
        case Polled(p) => PollIsRecent(maxSize, before, s, p);
      }
    }
  }

  lemma RecentAtEnd(maxSize: nat, events: seq<Event>)
    requires AlwaysRecent(maxSize, events)
    ensures IsRecent(maxSize, events, Run(maxSize, events))
  {
  }

  /** Runs in which no id is shared by two symbols are among them. */
  lemma {:induction false} OneSymbolAlwaysFinds(maxSize: nat, events: seq<Event>)
    requires OneSymbolPerId(events)
    ensures AlwaysFindsOwn(maxSize, events)
  {
    if events != [] {
      var before, e := events[..|events| - 1], events[|events| - 1];
      assert events == before + [e];
      OneSymbolPrefix(events, |before|);
      OneSymbolAlwaysFinds(maxSize, before);
      RunInvariant(maxSize, before, "");
      hide Run, IsRecent, FindsOwnEntry, OneSymbolPerId, Accounted, Tracks;
      if e.Appended? {
        OneSymbolFindsOwn(before, Run(maxSize, before), maxSize, e.ref);
      }
    }
  }

  lemma PollIsAccounted(s: State, p: Option<Symbol>)
    requires Accounted(s)
    ensures Accounted(GetLimit(s, p, None).0)
  {
    hide IsAccounted;
  }

  /** The tail shown for a user's own limit: the last new entries, except that a limit of 0 shows everything. */
  lemma LimitedTail(entries: seq<Ref>, symbol: Symbol, ids: set<OrderId>, limit: nat)
    requires Distinct(entries) && IsAccounted(entries, symbol, ids) && ids != {} && limit > 0
    ensures SliceTail(OfSymbol(entries, symbol), if limit < |ids| then limit else |ids|)
         == SliceTail(NewOf(entries, symbol, ids), limit)
  {
    hide OfSymbol, NewOf, Distinct, IsSuffix, AllIn;
    var es, ns := OfSymbol(entries, symbol), NewOf(entries, symbol, ids);
    TailIsNew(entries, symbol, ids);
    NewIsTail(entries, symbol, ids);
    NewOfSize(entries, symbol, ids);
    NewIdsAreIds(entries, symbol, ids);
    SubsetSize(IdSet(ns), ids);
    if limit < |ids| && limit > |ns| {
      CachedUnlessFewer(entries, symbol, ids);
    }
  }

  lemma CachedUnlessFewer(entries: seq<Ref>, symbol: Symbol, ids: set<OrderId>)
    requires Distinct(entries) && IsAccounted(entries, symbol, ids) && |NewOf(entries, symbol, ids)| < |ids|
    ensures NewOf(entries, symbol, ids) == OfSymbol(entries, symbol)
  {
    hide OfSymbol, NewOf, IdSet, Distinct, IsSuffix, AllIn;
    var ns := NewOf(entries, symbol, ids);
    NewIsTail(entries, symbol, ids);
    NewOfSize(entries, symbol, ids);
    if AllCached(entries, symbol, ids) {
      CachedIdsAreNew(entries, symbol, ids);
      SubsetSize(ids, IdSet(ns));
    }
  }

  /** What a watcher of one symbol is shown: if the symbol has new ids, the cached orders that were updated since the
      last poll before the symbol's last update, or the last of them for a limit of his own; a limit of 0, and a symbol
      without counter, show as many entries as the limit says, all of them without one. */
  lemma WatcherSeesNew(maxSize: nat, events: seq<Event>, symbol: Symbol, limit: Option<nat>)
    requires AlwaysFindsOwn(maxSize, events)
    ensures var s := Run(maxSize, events);
      var shown, all := TailFilter(s.entries, Some(symbol), GetLimit(s, Some(symbol), limit).1), OfSymbol(s.entries, symbol);
      if symbol in s.updates && limit != Some(0) then
        var ids := s.updates[symbol];
        var recent := NewOf(s.entries, symbol, ids);
        && shown == (if limit.Some? then SliceTail(recent, limit.value) else recent)
        && (forall x :: x in ids <==> IsNew(events, symbol, x))
        && IsSuffix(s.entries, symbol, ids)
      else shown == if limit.Some? then SliceTail(all, limit.value) else all
  {
    RunInvariant(maxSize, events, symbol);
    var s := Run(maxSize, events);
    hide Run, LastAppend, OfSymbol, NewOf, IsNew, LastOf, PolledBetween;
    RecentIsDistinct(events, s, maxSize);
    hide IsRecent, Distinct;
    if symbol in s.updates {
      TailIsNew(s.entries, symbol, s.updates[symbol]);
      if limit.Some? && limit.value > 0 {
        LimitedTail(s.entries, symbol, s.updates[symbol], limit.value);
      }
    }
  }

  // ----- an id shared by two symbols ---------------------------------------

  const IN_A := Ref("A", "1")
  const IN_B := Ref("B", "1")

  lemma RunStep(maxSize: nat, events: seq<Event>, e: Event)
    ensures Run(maxSize, events + [e]) == After(Run(maxSize, events), maxSize, e)
  {
    assert (events + [e])[..|events|] == events;
  }

  lemma EmptyRun(maxSize: nat)
    ensures Run(maxSize, []) == EMPTY
  {
  }

  lemma UpdateFirst()
    ensures var s := Append(EMPTY, 0, IN_A); s.entries == [IN_A] && s.index == {IN_A}
  {
  }

  lemma UpdateOther(s: State)
    requires s.entries == [IN_A] && s.index == {IN_A}
    ensures var s' := Append(s, 0, IN_B); s'.entries == [IN_A, IN_B] && s'.index == {IN_A, IN_B}
  {
    hide Counted;
    CountedKeepsEntries(Stored(s, 0, IN_B), IN_B);
  }

  lemma UpdateOtherAgain(s: State)
    requires s.entries == [IN_A, IN_B] && s.index == {IN_A, IN_B}
    ensures var s' := Append(s, 0, IN_B); s'.entries == [IN_B, IN_B] && IN_A in s'.index
  {
    hide Counted;
    CountedKeepsEntries(Stored(s, 0, IN_B), IN_B);
    assert FindIndex(s.entries, "1") == 0;
  }

  /** Updating the second of two orders that share an id removes the first one's entry and doubles the second. */
  lemma SharedIdDuplicates()
    ensures var s := Run(0, [Appended(IN_A), Appended(IN_B), Appended(IN_B)]);
      s.entries == [IN_B, IN_B] && IN_A in s.index
  {
    EmptyRun(0);
    UpdateFirst();
    hide Run, Append;
    var a, b := Appended(IN_A), Appended(IN_B);
    RunStep(0, [], a);
    RunStep(0, [a], b);
    RunStep(0, [a, b], b);
    assert [] + [a] == [a] && [a] + [b] == [a, b] && [a, b] + [b] == [a, b, b];
    UpdateOther(Run(0, [a]));
    UpdateOtherAgain(Run(0, [a, b]));
  }
}
