/** The cache object: an array of shared order objects, a two-level index onto the same objects, and counters. */
module Cache {
  import opened Basics
  import opened CacheModel

  /** An order object; callers keep references to it. An update never changes its symbol and id, which found it. */
  class Order {
    const symbol: Symbol
    const id: OrderId
    var props: map<string, string>

    constructor (symbol: Symbol, id: OrderId, props: map<string, string>)
      ensures this.symbol == symbol && this.id == id && this.props == props
    {
      this.symbol, this.id, this.props := symbol, id, props;
    }

    function Key(): Ref {
      Ref(symbol, id)
    }
  }

  ghost function RefsOf(entries: seq<Order>): (r: seq<Ref>)
    ensures |r| == |entries| && forall i :: 0 <= i < |r| ==> r[i] == entries[i].Key()
  {
    seq(|entries|, i requires 0 <= i < |entries| => entries[i].Key())
  }

  /** The keys of the two-level map. */
  ghost function Slots(h: map<Symbol, map<OrderId, Order>>): (r: set<Ref>)
    ensures forall x :: x in r <==> x.symbol in h && x.id in h[x.symbol]
  {
    set symbol, id | symbol in h && id in h[symbol] :: Ref(symbol, id)
  }

  function At(h: map<Symbol, map<OrderId, Order>>, r: Ref): Order
    requires r.symbol in h && r.id in h[r.symbol]
  {
    h[r.symbol][r.id]
  }

  function WithSlot(h: map<Symbol, map<OrderId, Order>>, r: Ref, item: Order): (h': map<Symbol, map<OrderId, Order>>)
    ensures Slots(h') == Slots(h) + {r}
    ensures forall x :: x in Slots(h') ==> At(h', x) == if x == r then item else At(h, x)
  {
    var byId: map<OrderId, Order> := if r.symbol in h then h[r.symbol] else map[];
    h[r.symbol := byId[r.id := item]]
  }

  function WithoutSlot(h: map<Symbol, map<OrderId, Order>>, r: Ref): (h': map<Symbol, map<OrderId, Order>>)
    requires r.symbol in h
    ensures Slots(h') == Slots(h) - {r}
    ensures forall x :: x in Slots(h') ==> At(h', x) == At(h, x)
  {
    h[r.symbol := h[r.symbol] - {r.id}]
  }

  /** Every entry is the very object its slot points to, and every slot points to an entry with its key. */
  ghost predicate Linked(entries: seq<Order>, h: map<Symbol, map<OrderId, Order>>) {
    && (forall i, j :: 0 <= i < j < |entries| ==> entries[i] != entries[j])
    && (forall e :: e in entries ==> e.Key() in Slots(h) && At(h, e.Key()) == e)
    && (forall r :: r in Slots(h) ==> At(h, r) in entries && At(h, r).Key() == r)
  }

  /** What holds even when an id is shared by two symbols: slots hold orders with their keys, and the symbol of every
      entry has a slot table. */
  ghost predicate Filed(entries: seq<Order>, h: map<Symbol, map<OrderId, Order>>) {
    && (forall r :: r in Slots(h) ==> At(h, r).Key() == r)
    && (forall e :: e in entries ==> e.symbol in h)
  }

  /** The object in the slot of a key, if there is one. */
  ghost function Known(h: map<Symbol, map<OrderId, Order>>, r: Ref): set<Order> {
    if r in Slots(h) then {At(h, r)} else {}
  }

  class ArrayCacheBySymbolById {
    /** 0 stands for no bound. */
    const maxSize: nat
    var entries: seq<Order>
    var hashmap: map<Symbol, map<OrderId, Order>>
    var newUpdatesBySymbol: map<Symbol, set<OrderId>>
    var clearUpdatesBySymbol: set<Symbol>
    var allNewUpdates: nat
    var clearAllUpdates: bool

    ghost function View(): State
      reads this
    {
      State(RefsOf(entries), Slots(hashmap), newUpdatesBySymbol, clearUpdatesBySymbol, allNewUpdates, clearAllUpdates)
    }

    ghost predicate Valid()
      reads this
    {
      Filed(entries, hashmap)
    }

    constructor (maxSize: nat)
      ensures Valid() && Linked(entries, hashmap) && this.maxSize == maxSize && View() == EMPTY
    {
      this.maxSize := maxSize;
      entries, hashmap := [], map[];
      newUpdatesBySymbol, clearUpdatesBySymbol := map[], {};
      allNewUpdates, clearAllUpdates := 0, false;
    }

    method GetLimit(symbol: Option<Symbol>, limit: Option<nat>) returns (r: Option<nat>)
      modifies this`clearUpdatesBySymbol, this`clearAllUpdates
      ensures (View(), r) == CacheModel.GetLimit(old(View()), symbol, limit)
    {
      hide RefsOf, Slots;
      var newUpdatesValue: Option<nat> := None;
      if symbol.None? {
        newUpdatesValue := Some(allNewUpdates);
        clearAllUpdates := true;
      } else {
        if symbol.value in newUpdatesBySymbol {
          newUpdatesValue := Some(|newUpdatesBySymbol[symbol.value]|);
        }
        clearUpdatesBySymbol := clearUpdatesBySymbol + {symbol.value};
      }
      if newUpdatesValue.None? {
        r := limit;
      } else if limit.Some? {
        r := Some(if limit.value < newUpdatesValue.value then limit.value else newUpdatesValue.value);
      } else {
        r := newUpdatesValue;
      }
    }

    method FindIndexOf(id: OrderId) returns (k: nat)
      ensures k == FindIndex(RefsOf(entries), id)
    {
      k := 0;
      while k < |entries| && entries[k].id != id
        invariant k <= |entries| && forall i :: 0 <= i < k ==> entries[i].id != id
      {
        k := k + 1;
      }
      FindIndexIs(RefsOf(entries), id, k);
    }

    /** splice (index, 1); a missing index, -1, counts from the end. */
    method SpliceOut(id: OrderId)
      modifies this`entries
      ensures RefsOf(entries) == Spliced(RefsOf(old(entries)), id)
      ensures forall e :: e in entries ==> e in old(entries)
      ensures var k := FindIndex(RefsOf(old(entries)), id);
        k < |old(entries)| ==> entries == old(entries)[..k] + old(entries)[k + 1..]
    {
      hide RefsOf;
      var k := FindIndexOf(id);
      SplicedRefs(entries, k, id);
      if k < |entries| {
        entries := entries[..k] + entries[k + 1..];
      } else if entries != [] {
        entries := entries[..|entries| - 1];
      }
    }

    /** Copies the properties of the update into the cached object, unless it is the same object. */
    method MergeInto(reference: Order, item: Order)
      modifies reference`props
      ensures reference.props == old(reference.props) + if reference == item then map[] else old(item.props)
    {
      if reference != item {
        reference.props := reference.props + item.props;
      }
    }

    /** Takes a known order out of the array, merging the update into its object; files a new one in the index. */
    method TakeOut(item: Order) returns (cached: Order)
      requires Valid()
      modifies this`entries, this`hashmap, Known(hashmap, item.Key())`props
      ensures var key, known := item.Key(), item.Key() in Slots(old(hashmap));
        && cached == (if known then At(old(hashmap), key) else item)
        && cached.Key() == key
        && hashmap == (if known then old(hashmap) else WithSlot(old(hashmap), key, item))
        && RefsOf(entries) == (if known then Spliced(RefsOf(old(entries)), key.id) else RefsOf(old(entries)))
      ensures cached.props == old(cached.props) + if cached == item then map[] else old(item.props)
      ensures Filed(entries + [cached], hashmap)
      ensures Linked(old(entries), old(hashmap)) && FindsOwnEntry(old(View()), item.Key()) ==>
        cached !in entries && Linked(entries + [cached], hashmap)
    {
      hide Linked, Slots, Filed, Spliced, WithSlot, RefsOf, FindIndex;
      var key := item.Key();
      var byId: map<OrderId, Order> := if item.symbol in hashmap then hashmap[item.symbol] else map[];
      InSlots(hashmap, key);
      if item.id in byId {
        cached := byId[item.id];
        SlotKey(entries, hashmap, key);
        MergeInto(cached, item);
        SpliceOut(item.id);
        TakenFiled(old(entries), entries, hashmap, key);
        if Linked(old(entries), hashmap) && FindsOwnEntry(old(View()), key) {
          TakenLinked(old(entries), hashmap, key);
        }
      } else {
        cached := item;
        NewFiled(entries, item, hashmap);
        if Linked(entries, hashmap) {
          NewLinked(entries, item, hashmap);
        }
        hashmap := WithSlot(hashmap, key, item);
      }
    }

    /** Drops the oldest order when the array is full, and puts this one at the end. */
    method Push(item: Order)
      requires Filed(entries + [item], hashmap)
      modifies this`entries, this`hashmap
      ensures Valid() && entries != [] && entries[|entries| - 1] == item
      ensures if maxSize > 0 && |old(entries)| == maxSize
              then RefsOf(entries) == RefsOf(old(entries))[1..] + [item.Key()]
                && Slots(hashmap) == old(Slots(hashmap)) - {old(RefsOf(entries))[0]}
              else RefsOf(entries) == RefsOf(old(entries)) + [item.Key()] && hashmap == old(hashmap)
      ensures forall r :: r in Slots(hashmap) ==> r in Slots(old(hashmap)) && At(hashmap, r) == At(old(hashmap), r)
      ensures item !in old(entries) && Linked(old(entries) + [item], old(hashmap)) ==> Linked(entries, hashmap)
    {
      hide Linked, Filed, Slots, RefsOf;
      PushedRefs(entries, item);
      if maxSize != 0 && |entries| == maxSize {
        var deleteReference := entries[0];
        FirstEvicted(entries, item, hashmap);
        entries := entries[1..];
        hashmap := WithoutSlot(hashmap, deleteReference.Key());
      }
      entries := entries + [item];
    }

    method ClearPolled()
      modifies this`newUpdatesBySymbol, this`clearUpdatesBySymbol, this`allNewUpdates, this`clearAllUpdates
      ensures View() == Cleared(old(View()))
    {
      hide RefsOf, Slots;
      if clearAllUpdates {
        clearAllUpdates := false;
        clearUpdatesBySymbol := {};
        allNewUpdates := 0;
        newUpdatesBySymbol := map[];
      }
    }

    /** The id set of a symbol, emptied when the symbol was polled. */
    method OpenIds(symbol: Symbol)
      modifies this`newUpdatesBySymbol, this`clearUpdatesBySymbol
      ensures newUpdatesBySymbol == old(newUpdatesBySymbol)[symbol := CountedIds(old(View()), symbol)]
      ensures clearUpdatesBySymbol == old(clearUpdatesBySymbol) - {symbol}
    {
      hide RefsOf, Slots;
      if symbol !in newUpdatesBySymbol {
        newUpdatesBySymbol := newUpdatesBySymbol[symbol := {}];
      }
      if symbol in clearUpdatesBySymbol {
        clearUpdatesBySymbol := clearUpdatesBySymbol - {symbol};
        newUpdatesBySymbol := newUpdatesBySymbol[symbol := {}];
      }
    }

    /** Resets what was polled and counts the order as new for its symbol. */
    method CountUpdate(r: Ref)
      modifies this`newUpdatesBySymbol, this`clearUpdatesBySymbol, this`allNewUpdates, this`clearAllUpdates
      ensures View() == Counted(old(View()), r)
    {
      hide RefsOf, Slots, Cleared, CountedIds;
      ClearPolled();
      OpenIds(r.symbol);
      var idSet := newUpdatesBySymbol[r.symbol];
      var beforeLength := |idSet|;
      newUpdatesBySymbol := newUpdatesBySymbol[r.symbol := idSet + {r.id}];
      var afterLength := |newUpdatesBySymbol[r.symbol]|;
      assert r.id in idSet ==> idSet + {r.id} == idSet;
      allNewUpdates := allNewUpdates + (afterLength - beforeLength);
    }

    /** The array and index part of append. */
    method Store(item: Order) returns (cached: Order)
      requires Valid()
      modifies this`entries, this`hashmap, Known(hashmap, item.Key())`props
      ensures Valid() && View() == Stored(old(View()), maxSize, item.Key())
      ensures entries != [] && entries[|entries| - 1] == cached && cached.Key() == item.Key()
      ensures cached == if item.Key() in Slots(old(hashmap)) then At(old(hashmap), item.Key()) else item
      ensures forall r :: r in Slots(hashmap) && r != item.Key() ==>
        r in Slots(old(hashmap)) && At(hashmap, r) == At(old(hashmap), r)
      ensures cached.props == old(cached.props) + if cached == item then map[] else old(item.props)
      ensures Linked(old(entries), old(hashmap)) && FindsOwnEntry(old(View()), item.Key()) ==> Linked(entries, hashmap)
    {
      hide RefsOf, Slots, Linked, Filed, Spliced, WithSlot, FindIndex;
      KnownSlots(hashmap, item.Key());
      cached := TakeOut(item);
      Push(cached);
    }

    /** A known order keeps its object, which takes over the new properties, and a new one is cached itself; while every
        append finds its own entry, the entries are the very objects the index points to. */
    method Append(item: Order)
      requires Valid()
      modifies this, Known(hashmap, item.Key())`props
      ensures Valid()
      ensures View() == CacheModel.Append(old(View()), maxSize, item.Key())
      ensures Linked(old(entries), old(hashmap)) && FindsOwnEntry(old(View()), item.Key()) ==> Linked(entries, hashmap)
      ensures forall r :: r in Slots(hashmap) && r != item.Key() ==>
        r in Slots(old(hashmap)) && At(hashmap, r) == At(old(hashmap), r)
      ensures entries != []
      ensures var last, known := entries[|entries| - 1], item.Key() in Slots(old(hashmap));
        && last == (if known then At(old(hashmap), item.Key()) else item)
        && last.props == (old(last.props) + if last == item then map[] else old(item.props))
    {
      hide RefsOf, Slots, Linked, Filed, Spliced, WithSlot, Counted, Stored, FindsOwnEntry;
      var cached := Store(item);
      CountUpdate(cached.Key());
    }
  }

  lemma SplicedRefs(entries: seq<Order>, k: nat, id: OrderId)
    requires k == FindIndex(RefsOf(entries), id)
    ensures k <= |entries|
    ensures Spliced(RefsOf(entries), id) ==
      if k < |entries| then RefsOf(entries[..k] + entries[k + 1..])
      else if entries == [] then RefsOf(entries) else RefsOf(entries[..|entries| - 1])
  {
    hide FindIndex;
  }

  lemma PushedRefs(entries: seq<Order>, item: Order)
    ensures RefsOf(entries + [item]) == RefsOf(entries) + [item.Key()]
    ensures entries != [] ==> RefsOf(entries[1..] + [item]) == RefsOf(entries)[1..] + [item.Key()]
  {
  }

  lemma InSlots(h: map<Symbol, map<OrderId, Order>>, r: Ref)
    ensures r in Slots(h) <==> r.symbol in h && r.id in h[r.symbol]
  {
  }

  lemma KnownSlots(h: map<Symbol, map<OrderId, Order>>, r: Ref)
    ensures r in Slots(h) ==> Slots(h) + {r} == Slots(h)
  {
  }

  lemma SlotKey(entries: seq<Order>, h: map<Symbol, map<OrderId, Order>>, r: Ref)
    requires Filed(entries, h) && r in Slots(h)
    ensures At(h, r).Key() == r
  {
  }

  lemma TakenFiled(before: seq<Order>, after: seq<Order>, h: map<Symbol, map<OrderId, Order>>, r: Ref)
    requires Filed(before, h) && r in Slots(h) && forall e :: e in after ==> e in before
    ensures Filed(after + [At(h, r)], h)
  {
  }

  lemma NewFiled(entries: seq<Order>, item: Order, h: map<Symbol, map<OrderId, Order>>)
    requires Filed(entries, h)
    ensures Filed(entries + [item], WithSlot(h, item.Key(), item))
  {
    WithSlotKeeps(h, item.Key(), item);
    hide WithSlot;
  }

  lemma WithSlotKeeps(h: map<Symbol, map<OrderId, Order>>, r: Ref, item: Order)
    ensures r.symbol in WithSlot(h, r, item) && forall symbol :: symbol in h ==> symbol in WithSlot(h, r, item)
  {
  }

  lemma LinkedFacts(entries: seq<Order>, h: map<Symbol, map<OrderId, Order>>)
    requires Linked(entries, h)
    ensures forall r :: r in Slots(h) ==> At(h, r) in entries && At(h, r).Key() == r
    ensures forall e :: e in entries ==> e.Key() in Slots(h) && At(h, e.Key()) == e
  {
  }

  /** Taking out the entry the search finds, when that is the known order's own. */
  lemma TakenLinked(entries: seq<Order>, h: map<Symbol, map<OrderId, Order>>, r: Ref)
    requires Linked(entries, h) && r in Slots(h)
    requires var k := FindIndex(RefsOf(entries), r.id); k < |entries| && RefsOf(entries)[k] == r
    ensures var k := FindIndex(RefsOf(entries), r.id);
      var rest := entries[..k] + entries[k + 1..];
      At(h, r) !in rest && Linked(rest + [At(h, r)], h)
  {
    hide FindIndex, Slots, RefsOf, At;
    var k := FindIndex(RefsOf(entries), r.id);
    LinkedFacts(entries, h);
    assert entries[k] in entries && entries[k].Key() == r;
    RestMembers(entries, k);
  }

  lemma RestMembers(entries: seq<Order>, k: nat)
    requires k < |entries| && forall i, j :: 0 <= i < j < |entries| ==> entries[i] != entries[j]
    ensures var rest, x := entries[..k] + entries[k + 1..], entries[k];
      && (forall e :: e in rest + [x] <==> e in entries) && x !in rest
      && forall i, j :: 0 <= i < j < |rest + [x]| ==> (rest + [x])[i] != (rest + [x])[j]
  {
    assert entries == entries[..k] + [entries[k]] + entries[k + 1..];
  }

  lemma NewLinked(entries: seq<Order>, item: Order, h: map<Symbol, map<OrderId, Order>>)
    requires Linked(entries, h) && item.Key() !in Slots(h)
    ensures item !in entries && Linked(entries + [item], WithSlot(h, item.Key(), item))
  {
    hide WithSlot;
  }

  /** Evicting the oldest order together with the slot of its key. */
  lemma FirstEvicted(entries: seq<Order>, item: Order, h: map<Symbol, map<OrderId, Order>>)
    requires Filed(entries + [item], h) && entries != []
    ensures entries[0].symbol in h
    ensures Filed(entries[1..] + [item], WithoutSlot(h, entries[0].Key()))
    ensures item !in entries && Linked(entries + [item], h) ==>
      Linked(entries[1..] + [item], WithoutSlot(h, entries[0].Key()))
  {
    var before, after := entries + [item], entries[1..] + [item];
    assert entries[0] in before;
    assert before == [entries[0]] + after;
    assert forall e :: e in after ==> e in before;
    WithoutSlotKeeps(h, entries[0].Key());
    if item !in entries && Linked(before, h) {
      StillLinked(before, after, h, WithoutSlot(h, entries[0].Key()));
    }
  }

  lemma WithoutSlotKeeps(h: map<Symbol, map<OrderId, Order>>, r: Ref)
    requires r.symbol in h
    ensures WithoutSlot(h, r).Keys == h.Keys
  {
  }

  /** Removing an entry together with its slot keeps the rest linked. */
  lemma StillLinked(before: seq<Order>, after: seq<Order>, h: map<Symbol, map<OrderId, Order>>, h': map<Symbol, map<OrderId, Order>>)
    requires Linked(before, h) && before != [] && after == before[1..]
    requires Slots(h') == Slots(h) - {before[0].Key()}
    requires forall x :: x in Slots(h') ==> At(h', x) == At(h, x)
    ensures Linked(after, h')
  {
    assert before == [before[0]] + after;
    forall e | e in after ensures e.Key() in Slots(h') && At(h', e.Key()) == e {
      var i :| 0 <= i < |after| && after[i] == e;
      assert e == before[i + 1] && before[0] != before[i + 1];
      assert before[0] in before;
    }
  }
}
