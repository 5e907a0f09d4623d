/** The side of an order book that is updated by order id: a sorted index, the levels, and a map from id to price. */
module IndexedSides {
  import opened Basics
  import opened SortedIndex

  type LevelId = string

  datatype Delta = Delta(price: Option<real>, size: real, id: LevelId)

  datatype IdLevel = IdLevel(price: real, size: real, id: LevelId)

  /** The visible state: the live keys of the index, the levels, and the id map. */
  datatype View = View(keys: seq<real>, levels: seq<IdLevel>, hashmap: map<LevelId, real>)

  /** Where bisectLeft puts x: the number of keys in front that are smaller. */
  function Position(keys: seq<real>, x: real): (k: nat)
    ensures k <= |keys|
    ensures forall i :: 0 <= i < k ==> keys[i] < x
    ensures k < |keys| ==> keys[k] >= x
  {
    if keys == [] || keys[0] >= x then 0 else 1 + Position(keys[1..], x)
  }

  /** The key an update of a live id ends up with: a missing or zero price keeps the old one. */
  function UpdatedKey(side: bool, price: Option<real>, oldKey: real): real {
    if price.Some? && KeyOf(side, price.value) != 0.0 then KeyOf(side, price.value) else oldKey
  }

  /** What a caller must send: finite prices, and a price with every new id. */
  ghost predicate Allowed(v: View, d: Delta) {
    && (d.price.Some? ==> -MAX_VALUE < d.price.value < MAX_VALUE)
    && (d.size != 0.0 && d.id !in v.hashmap ==> d.price.Some?)
  }

  // ----- one delta ---------------------------------------------------------

  function Removed(v: View, key: real): View
    requires |v.keys| == |v.levels| && Position(v.keys, key) < |v.keys|
  {
    var i := Position(v.keys, key);
    v.(keys := RemoveAt(v.keys, i), levels := RemoveAt(v.levels, i))
  }

  function Inserted(v: View, key: real, level: IdLevel): View
    requires |v.keys| == |v.levels|
  {
    var i := Position(v.keys, key);
    View(InsertAt(v.keys, i, key), InsertAt(v.levels, i, level), v.hashmap[level.id := key])
  }

  /** Keys sorted below the sentinel, one per level, and the same prices, as often, as the id map holds. */
  ghost predicate Consistent(v: View) {
    && SortedKeys(v.keys) && |v.keys| == |v.levels|
    && forall x :: multiset(v.keys)[x] == |Holders(v.hashmap, x)|
  }

  ghost function Holders(m: map<LevelId, real>, x: real): set<LevelId> {
    set id | id in m && m[id] == x
  }

  /** storeArray of an indexed side, in terms of the visible state. */
  function Step(side: bool, v: View, d: Delta): View
    requires Consistent(v) && Allowed(v, d)
  {
    if d.size != 0.0 then
      if d.id in v.hashmap then
        var oldKey := v.hashmap[d.id];
        var key := UpdatedKey(side, d.price, oldKey);
        var level := IdLevel(RealAbs(key), d.size, d.id);
        LiveKeyIsFound(v, d.id);
        if key == oldKey then v.(levels := v.levels[Position(v.keys, key) := level])
        else Inserted(Removed(v, oldKey), key, level)
      else
        Inserted(v, KeyOf(side, d.price.value), IdLevel(d.price.value, d.size, d.id))
    else if d.id in v.hashmap then
      LiveKeyIsFound(v, d.id);
      Removed(v, v.hashmap[d.id]).(hashmap := v.hashmap - {d.id})
    else v
  }

  lemma LiveKeyIsFound(v: View, id: LevelId)
    requires Consistent(v) && id in v.hashmap
    ensures var i := Position(v.keys, v.hashmap[id]); i < |v.keys| && v.keys[i] == v.hashmap[id]
    ensures v.hashmap[id] < MAX_VALUE
  {
    var x := v.hashmap[id];
    assert id in Holders(v.hashmap, x);
    assert x in multiset(v.keys);
    var j :| 0 <= j < |v.keys| && v.keys[j] == x;
    assert Position(v.keys, x) <= j;
  }

  // ----- the invariant of every run ----------------------------------------

  lemma PositionSplits(keys: seq<real>, x: real)
    requires SortedKeys(keys)
    ensures Splits(keys, x, Position(keys, x))
  {
  }

  lemma SplitIsPosition(keys: seq<real>, x: real, i: int)
    requires Splits(keys, x, i)
    ensures i == Position(keys, x)
  {
    assert i < |keys| ==> keys[i] >= x;
    assert Position(keys, x) < |keys| ==> keys[Position(keys, x)] >= x;
  }

  lemma BagOfInserted(keys: seq<real>, i: nat, x: real)
    requires i <= |keys|
    ensures multiset(InsertAt(keys, i, x)) == multiset(keys) + multiset{x}
  {
    assert keys == keys[..i] + keys[i..];
  }

  lemma BagOfRemoved(keys: seq<real>, i: nat)
    requires i < |keys|
    ensures multiset(RemoveAt(keys, i)) == multiset(keys) - multiset{keys[i]}
  {
    assert keys == keys[..i] + [keys[i]] + keys[i + 1..];
  }

  lemma HoldersAdded(m: map<LevelId, real>, id: LevelId, key: real, x: real)
    requires id !in m
    ensures |Holders(m[id := key], x)| == |Holders(m, x)| + if x == key then 1 else 0
  {
    if x == key {
      assert Holders(m[id := key], x) == Holders(m, x) + {id};
    } else {
      assert Holders(m[id := key], x) == Holders(m, x);
    }
  }

  lemma HoldersDropped(m: map<LevelId, real>, id: LevelId, x: real)
    requires id in m
    ensures |Holders(m - {id}, x)| == |Holders(m, x)| - if x == m[id] then 1 else 0
  {
    if x == m[id] {
      assert Holders(m - {id}, x) == Holders(m, x) - {id};
    } else {
      assert Holders(m - {id}, x) == Holders(m, x);
    }
  }

  lemma RemovedCounts(v: View, id: LevelId)
    requires Consistent(v) && id in v.hashmap
    ensures Position(v.keys, v.hashmap[id]) < |v.keys|
    ensures Consistent(Removed(v, v.hashmap[id]).(hashmap := v.hashmap - {id}))
  {
    LiveKeyIsFound(v, id);
    hide Holders, SortedKeys, RemoveAt;
    var key := v.hashmap[id];
    var i := Position(v.keys, key);
    RemoveKeepsSorted(v.keys, i);
    BagOfRemoved(v.keys, i);
    forall x ensures multiset(RemoveAt(v.keys, i))[x] == |Holders(v.hashmap - {id}, x)| {
      HoldersDropped(v.hashmap, id, x);
    }
  }

  lemma InsertedCounts(v: View, key: real, level: IdLevel)
    requires Consistent(v) && level.id !in v.hashmap && key < MAX_VALUE
    ensures Consistent(Inserted(v, key, level))
  {
    var i := Position(v.keys, key);
    PositionSplits(v.keys, key);
    InsertKeepsSorted(v.keys, i, key);
    hide Holders, SortedKeys, InsertAt;
    BagOfInserted(v.keys, i, key);
    forall x ensures multiset(InsertAt(v.keys, i, key))[x] == |Holders(v.hashmap[level.id := key], x)| {
      HoldersAdded(v.hashmap, level.id, key, x);
    }
  }

  /** Every delta keeps index, levels and id map consistent, shared prices or not. */
  lemma StepConsistent(side: bool, v: View, d: Delta)
    requires Consistent(v) && Allowed(v, d)
    ensures Consistent(Step(side, v, d))
  {
    if d.id in v.hashmap {
      LiveKeyIsFound(v, d.id);
      RemovedCounts(v, d.id);
      var oldKey := v.hashmap[d.id];
      if d.size != 0.0 {
        var key := UpdatedKey(side, d.price, oldKey);
        var level := IdLevel(RealAbs(key), d.size, d.id);
        if key != oldKey {
          var r := Removed(v, oldKey).(hashmap := v.hashmap - {d.id});
          InsertedCounts(r, key, level);
          assert r.hashmap[d.id := key] == v.hashmap[d.id := key];
        }
      }
    } else if d.size != 0.0 {
      InsertedCounts(v, KeyOf(side, d.price.value), IdLevel(d.price.value, d.size, d.id));
    }
  }

  // ----- the levels against the id map -------------------------------------

  datatype Entry = Entry(key: real, level: IdLevel)

  /** One delta on the plain map from id to its price key and level; a new id comes with a price. */
  function Tracked(side: bool, m: map<LevelId, Entry>, d: Delta): map<LevelId, Entry> {
    if d.size == 0.0 then m - {d.id}
    else if d.id in m then
      var key := UpdatedKey(side, d.price, m[d.id].key);
      m[d.id := Entry(key, IdLevel(RealAbs(key), d.size, d.id))]
    else if d.price.None? then m
    else m[d.id := Entry(KeyOf(side, d.price.value), IdLevel(d.price.value, d.size, d.id))]
  }

  ghost predicate Lists(levels: seq<IdLevel>, id: LevelId) {
    exists i :: 0 <= i < |levels| && levels[i].id == id
  }

  /** The levels are exactly the map's levels, each once, at the map's keys. */
  ghost predicate Listing(keys: seq<real>, levels: seq<IdLevel>, m: map<LevelId, Entry>) {
    && |keys| == |levels|
    && (forall i :: 0 <= i < |levels| ==> levels[i].id in m && m[levels[i].id] == Entry(keys[i], levels[i]))
    && (forall i, j :: 0 <= i < j < |levels| ==> levels[i].id != levels[j].id)
    && forall id :: id in m ==> Lists(levels, id)
  }

  ghost predicate HoldsKeys(hashmap: map<LevelId, real>, m: map<LevelId, Entry>) {
    hashmap.Keys == m.Keys && forall id :: id in m ==> m[id].key == hashmap[id]
  }

  /** The levels are exactly the map's levels listed by price, and the id map holds its keys. */
  ghost predicate Exact(v: View, m: map<LevelId, Entry>) {
    Consistent(v) && HoldsKeys(v.hashmap, m) && Listing(v.keys, v.levels, m)
  }

  /** The search for a live id's price hits the level of that id. */
  predicate FindsOwn(v: View, d: Delta) {
    d.id in v.hashmap ==>
      var i := Position(v.keys, v.hashmap[d.id]); i < |v.levels| && v.levels[i].id == d.id
  }

  lemma StillListed(levels: seq<IdLevel>, k: nat, id: LevelId)
    requires k < |levels| && Lists(levels, id) && levels[k].id != id
    ensures Lists(RemoveAt(levels, k), id)
  {
    RemovedAt(levels, k);
    hide RemoveAt;
    var j :| 0 <= j < |levels| && levels[j].id == id;
    assert RemoveAt(levels, k)[if j < k then j else j - 1].id == id;
  }

  lemma RemovedListing(keys: seq<real>, levels: seq<IdLevel>, m: map<LevelId, Entry>, k: nat)
    requires Listing(keys, levels, m) && k < |levels|
    ensures Listing(RemoveAt(keys, k), RemoveAt(levels, k), m - {levels[k].id})
  {
    RemovedAt(keys, k);
    RemovedAt(levels, k);
    hide RemoveAt, Lists;
    forall x | x in m - {levels[k].id} ensures Lists(RemoveAt(levels, k), x) {
      StillListed(levels, k, x);
    }
  }

  lemma InsertedListing(keys: seq<real>, levels: seq<IdLevel>, m: map<LevelId, Entry>, k: nat, key: real, level: IdLevel)
    requires Listing(keys, levels, m) && k <= |levels| && level.id !in m
    ensures Listing(InsertAt(keys, k, key), InsertAt(levels, k, level), m[level.id := Entry(key, level)])
  {
    hide InsertAt, Lists;
    InsertedAt(keys, k, key);
    InsertedAt(levels, k, level);
    forall x | x in m[level.id := Entry(key, level)] ensures Lists(InsertAt(levels, k, level), x) {
      ListedBehind(levels, k, level, x);
    }
  }

  lemma ListedBehind(levels: seq<IdLevel>, k: nat, level: IdLevel, id: LevelId)
    requires k <= |levels| && (id == level.id || Lists(levels, id))
    ensures Lists(InsertAt(levels, k, level), id)
  {
    InsertedAt(levels, k, level);
    hide InsertAt;
    var r := InsertAt(levels, k, level);
    if id == level.id {
      assert r[k].id == id;
    } else {
      var j :| 0 <= j < |levels| && levels[j].id == id;
      assert r[if j < k then j else j + 1].id == id;
    }
  }

  lemma RemovedExact(v: View, m: map<LevelId, Entry>, id: LevelId, k: nat)
    requires Exact(v, m) && id in m && k == Position(v.keys, v.hashmap[id]) && k < |v.levels| && v.levels[k].id == id
    ensures Exact(Removed(v, v.hashmap[id]).(hashmap := v.hashmap - {id}), m - {id})
  {
    hide Consistent, Position, Listing, HoldsKeys, RemoveAt;
    KeysHeld(v.hashmap, m, id);
    RemovedCounts(v, id);
    RemovedListing(v.keys, v.levels, m, k);
  }

  lemma KeysHeld(hashmap: map<LevelId, real>, m: map<LevelId, Entry>, id: LevelId)
    requires HoldsKeys(hashmap, m)
    ensures id in m <==> id in hashmap
    ensures HoldsKeys(hashmap - {id}, m - {id})
    ensures forall key, level :: HoldsKeys(hashmap[id := key], m[id := Entry(key, level)])
  {
  }

  lemma InsertedExact(v: View, m: map<LevelId, Entry>, key: real, level: IdLevel)
    requires Exact(v, m) && level.id !in m && key < MAX_VALUE
    ensures Exact(Inserted(v, key, level), m[level.id := Entry(key, level)])
  {
    hide Consistent, Listing, HoldsKeys, InsertAt;
    KeysHeld(v.hashmap, m, level.id);
    InsertedCounts(v, key, level);
    ExactSizes(v, m);
    InsertedListing(v.keys, v.levels, m, Position(v.keys, key), key, level);
  }

  lemma UpdatedListing(keys: seq<real>, levels: seq<IdLevel>, m: map<LevelId, Entry>, k: nat, level: IdLevel)
    requires Listing(keys, levels, m) && k < |levels| && levels[k].id == level.id
    ensures Listing(keys, levels[k := level], m[level.id := Entry(m[level.id].key, level)])
  {
    var r := levels[k := level];
    assert forall i :: 0 <= i < |levels| ==> r[i].id == levels[i].id;
    forall x | x in m[level.id := Entry(m[level.id].key, level)] ensures Lists(r, x) {
      assert Lists(levels, x);
      var j :| 0 <= j < |levels| && levels[j].id == x;
      assert r[j].id == x;
    }
  }

  lemma UpdatedExact(v: View, m: map<LevelId, Entry>, level: IdLevel, k: nat)
    requires Exact(v, m) && level.id in m && k < |v.levels| && v.levels[k].id == level.id
    ensures Exact(v.(levels := v.levels[k := level]), m[level.id := Entry(m[level.id].key, level)])
  {
    hide Listing, Holders, SortedKeys, HoldsKeys;
    UpdatedListing(v.keys, v.levels, m, k, level);
    SameKeyHeld(v.hashmap, m, level);
  }

  lemma SameKeyHeld(hashmap: map<LevelId, real>, m: map<LevelId, Entry>, level: IdLevel)
    requires HoldsKeys(hashmap, m) && level.id in m
    ensures HoldsKeys(hashmap, m[level.id := Entry(m[level.id].key, level)])
  {
  }

  lemma ExactSizes(v: View, m: map<LevelId, Entry>)
    requires Exact(v, m)
    ensures |v.keys| == |v.levels| && v.hashmap.Keys == m.Keys
  {
  }

  /** A move is a removal followed by an insertion. */
  lemma MovedExact(v: View, m: map<LevelId, Entry>, key: real, level: IdLevel, k: nat)
    requires Exact(v, m) && level.id in m && k == Position(v.keys, v.hashmap[level.id])
    requires k < |v.levels| && v.levels[k].id == level.id && key < MAX_VALUE
    ensures k < |v.keys| && |v.keys| == |v.levels|
    ensures Exact(Inserted(Removed(v, v.hashmap[level.id]), key, level), m[level.id := Entry(key, level)])
  {
    hide Exact, Position, Consistent, RemoveAt, InsertAt;
    ExactSizes(v, m);
    var id := level.id;
    RemovedExact(v, m, id, k);
    var r := Removed(v, v.hashmap[id]).(hashmap := v.hashmap - {id});
    InsertedExact(r, m - {id}, key, level);
    assert r.hashmap[id := key] == v.hashmap[id := key];
    assert (m - {id})[id := Entry(key, level)] == m[id := Entry(key, level)];
  }

  lemma OwnStepExact(side: bool, v: View, m: map<LevelId, Entry>, d: Delta)
    requires Exact(v, m) && Allowed(v, d) && FindsOwn(v, d)
    ensures Exact(Step(side, v, d), Tracked(side, m, d))
  {
    if d.id in m {
      LiveKeyIsFound(v, d.id);
      KeyBelowSentinel(side, v, d);
      var k := Position(v.keys, v.hashmap[d.id]);
      var key := UpdatedKey(side, d.price, v.hashmap[d.id]);
      var level := IdLevel(RealAbs(key), d.size, d.id);
      hide Consistent, Position, Holders;
      if d.size == 0.0 {
        RemovedExact(v, m, d.id, k);
      } else if key == v.hashmap[d.id] {
        UpdatedExact(v, m, level, k);
      } else {
        MovedExact(v, m, key, level, k);
      }
    } else {
      hide Consistent, Position, Holders;
      if d.size != 0.0 {
        InsertedExact(v, m, KeyOf(side, d.price.value), IdLevel(d.price.value, d.size, d.id));
      } else {
        assert m - {d.id} == m;
      }
    }
  }

  /** Levels without the one at k: its id is gone. */
  lemma IdIsGone(v: View, m: map<LevelId, Entry>, k: nat, at: nat, level: IdLevel)
    requires Exact(v, m) && k < |v.levels| && level.id != v.levels[k].id && at <= |v.levels| - 1
    ensures !Lists(RemoveAt(v.levels, k), v.levels[k].id)
    ensures !Lists(v.levels[k := level], v.levels[k].id)
    ensures !Lists(InsertAt(RemoveAt(v.levels, k), at, level), v.levels[k].id)
  {
    RemovedAt(v.levels, k);
    var r := RemoveAt(v.levels, k);
    InsertedAt(r, at, level);
    hide RemoveAt, InsertAt, Consistent;
  }

  /** A step that hits another id's level loses that id. */
  lemma OtherStepNotExact(side: bool, v: View, m: map<LevelId, Entry>, d: Delta)
    requires Exact(v, m) && Allowed(v, d) && !FindsOwn(v, d)
    ensures !Exact(Step(side, v, d), Tracked(side, m, d))
  {
    LiveKeyIsFound(v, d.id);
    var k := Position(v.keys, v.hashmap[d.id]);
    var other := v.levels[k].id;
    var key := UpdatedKey(side, d.price, v.hashmap[d.id]);
    var level := IdLevel(RealAbs(key), d.size, d.id);
    hide Consistent, Holders;
    assert other in Tracked(side, m, d);
    IdIsGone(v, m, k, Position(RemoveAt(v.keys, k), key), level);
  }

  /** Every delta keeps the levels exactly the id map listed by price if, and only if, it finds its own level. */
  lemma StepExact(side: bool, v: View, m: map<LevelId, Entry>, d: Delta)
    requires Exact(v, m) && Allowed(v, d)
    ensures Exact(Step(side, v, d), Tracked(side, m, d)) <==> FindsOwn(v, d)
  {
    hide *;
    if FindsOwn(v, d) {
      OwnStepExact(side, v, m, d);
    } else {
      OtherStepNotExact(side, v, m, d);
    }
  }

  /** An id that was stored last at its price finds its own level. */
  lemma LastStoredIsFound(side: bool, v: View, m: map<LevelId, Entry>, d: Delta, next: Delta)
    requires Exact(v, m) && Allowed(v, d) && FindsOwn(v, d) && d.size != 0.0 && next.id == d.id
    ensures FindsOwn(Step(side, v, d), next)
  {
    hide Holders;
    if d.id in v.hashmap {
      LiveKeyIsFound(v, d.id);
      var key := UpdatedKey(side, d.price, v.hashmap[d.id]);
      PositionOfInserted(Removed(v, v.hashmap[d.id]).keys, key);
    } else {
      PositionOfInserted(v.keys, KeyOf(side, d.price.value));
    }
  }

  lemma PositionOfInserted(keys: seq<real>, x: real)
    ensures Position(InsertAt(keys, Position(keys, x), x), x) == Position(keys, x)
  {
    var k := Position(keys, x);
    var r := InsertAt(keys, k, x);
    assert r[k] == x && forall i :: 0 <= i < k ==> r[i] == keys[i];
    PositionIs(r, x, k);
  }

  lemma PositionIs(keys: seq<real>, x: real, k: nat)
    requires k < |keys| && keys[k] >= x && forall i :: 0 <= i < k ==> keys[i] < x
    ensures Position(keys, x) == k
  {
  }

  ghost predicate DistinctKeys(m: map<LevelId, Entry>) {
    forall a, b :: a in m && b in m && a != b ==> m[a].key != m[b].key
  }

  /** While live ids hold distinct prices, every delta finds its own level, and no price is listed twice. */
  lemma DistinctFindsOwn(v: View, m: map<LevelId, Entry>, d: Delta)
    requires Exact(v, m) && DistinctKeys(m)
    ensures FindsOwn(v, d) && StrictlySorted(v.keys)
  {
    if d.id in v.hashmap {
      LiveKeyIsFound(v, d.id);
      assert m[v.levels[Position(v.keys, v.hashmap[d.id])].id].key == m[d.id].key;
    }
    forall i, j | 0 <= i < j < |v.keys| ensures v.keys[i] < v.keys[j] {
      assert m[v.levels[i].id].key == v.keys[i] && m[v.levels[j].id].key == v.keys[j];
    }
  }

  lemma KeyBelowSentinel(side: bool, v: View, d: Delta)
    requires Consistent(v) && Allowed(v, d) && d.id in v.hashmap
    ensures UpdatedKey(side, d.price, v.hashmap[d.id]) < MAX_VALUE
  {
    LiveKeyIsFound(v, d.id);
  }

  // ----- whole runs --------------------------------------------------------

  ghost predicate AllowedRun(side: bool, v: View, deltas: seq<Delta>)
    requires Consistent(v)
    decreases deltas
  {
    deltas == [] ||
    (Allowed(v, deltas[0]) && (StepConsistent(side, v, deltas[0]); AllowedRun(side, Step(side, v, deltas[0]), deltas[1..])))
  }

  ghost function Run(side: bool, v: View, deltas: seq<Delta>): (r: View)
    requires Consistent(v) && AllowedRun(side, v, deltas)
    ensures Consistent(r)
    decreases deltas
  {
    if deltas == [] then v
    else StepConsistent(side, v, deltas[0]); Run(side, Step(side, v, deltas[0]), deltas[1..])
  }

  ghost function TrackedRun(side: bool, m: map<LevelId, Entry>, deltas: seq<Delta>): map<LevelId, Entry>
    decreases deltas
  {
    if deltas == [] then m else TrackedRun(side, Tracked(side, m, deltas[0]), deltas[1..])
  }

  /** Every delta of the run finds its own level. */
  ghost predicate AlwaysFindsOwn(side: bool, v: View, deltas: seq<Delta>)
    requires Consistent(v) && AllowedRun(side, v, deltas)
    decreases deltas
  {
    deltas == [] ||
    (FindsOwn(v, deltas[0]) &&
      (StepConsistent(side, v, deltas[0]); AlwaysFindsOwn(side, Step(side, v, deltas[0]), deltas[1..])))
  }

  /** The levels are exactly the id map before and behind every delta of the run. */
  ghost predicate AlwaysExact(side: bool, v: View, m: map<LevelId, Entry>, deltas: seq<Delta>)
    requires Consistent(v) && AllowedRun(side, v, deltas)
    decreases deltas
  {
    Exact(v, m) &&
    (deltas == [] ||
      (StepConsistent(side, v, deltas[0]);
       AlwaysExact(side, Step(side, v, deltas[0]), Tracked(side, m, deltas[0]), deltas[1..])))
  }

  /** No two live ids share a price before any delta of the run. */
  ghost predicate AlwaysDistinct(side: bool, m: map<LevelId, Entry>, deltas: seq<Delta>)
    decreases deltas
  {
    DistinctKeys(m) && (deltas == [] || AlwaysDistinct(side, Tracked(side, m, deltas[0]), deltas[1..]))
  }

  const NOTHING := View([], [], map[])

  lemma NothingListed()
    ensures Consistent(NOTHING) && Exact(NOTHING, map[])
  {
    forall x ensures multiset(NOTHING.keys)[x] == |Holders(NOTHING.hashmap, x)| {
      assert Holders(NOTHING.hashmap, x) == {};
    }
  }

  /** Over every run the levels stay exactly the id map if, and only if, every delta finds its own level. */
  lemma {:induction false} RunExact(side: bool, v: View, m: map<LevelId, Entry>, deltas: seq<Delta>)
    requires Consistent(v) && Exact(v, m) && AllowedRun(side, v, deltas)
    ensures AlwaysExact(side, v, m, deltas) <==> AlwaysFindsOwn(side, v, deltas)
    ensures AlwaysFindsOwn(side, v, deltas) ==> Exact(Run(side, v, deltas), TrackedRun(side, m, deltas))
    decreases deltas
  {
    hide Exact, Step, Tracked, Consistent, FindsOwn, Allowed;
    if deltas != [] {
      StepExact(side, v, m, deltas[0]);
      StepConsistent(side, v, deltas[0]);
      var next, rest := Step(side, v, deltas[0]), deltas[1..];
      if FindsOwn(v, deltas[0]) {
        RunExact(side, next, Tracked(side, m, deltas[0]), rest);
      } else {
        NotExactAtStart(side, next, Tracked(side, m, deltas[0]), rest);
      }
    }
  }

  lemma NotExactAtStart(side: bool, v: View, m: map<LevelId, Entry>, deltas: seq<Delta>)
    requires Consistent(v) && AllowedRun(side, v, deltas) && !Exact(v, m)
    ensures !AlwaysExact(side, v, m, deltas)
  {
  }

  /** Runs in which no two live ids ever share a price are among them. */
  lemma {:induction false} DistinctRunFindsOwn(side: bool, v: View, m: map<LevelId, Entry>, deltas: seq<Delta>)
    requires Consistent(v) && Exact(v, m) && AllowedRun(side, v, deltas) && AlwaysDistinct(side, m, deltas)
    ensures AlwaysFindsOwn(side, v, deltas)
    decreases deltas
  {
    hide Exact, Step, Tracked, Consistent, FindsOwn, Allowed, DistinctKeys;
    if deltas != [] {
      DistinctFindsOwn(v, m, deltas[0]);
      StepExact(side, v, m, deltas[0]);
      StepConsistent(side, v, deltas[0]);
      DistinctRunFindsOwn(side, Step(side, v, deltas[0]), Tracked(side, m, deltas[0]), deltas[1..]);
    }
  }

  /** From an empty side, over any run whose deltas find their own levels: the levels are exactly the surviving id map
      in price order, each id once; and no price occurs twice unless two live ids share it. */
  lemma RunFromNothing(side: bool, deltas: seq<Delta>)
    requires Consistent(NOTHING) && AllowedRun(side, NOTHING, deltas) && AlwaysFindsOwn(side, NOTHING, deltas)
    ensures var v, m := Run(side, NOTHING, deltas), TrackedRun(side, map[], deltas);
      && SortedKeys(v.keys) && |v.levels| == |v.keys| && v.hashmap.Keys == m.Keys
      && (forall i :: 0 <= i < |v.levels| ==>
        v.levels[i].id in m && m[v.levels[i].id] == Entry(v.keys[i], v.levels[i]))
      && (forall i, j :: 0 <= i < j < |v.levels| ==> v.levels[i].id != v.levels[j].id)
      && (forall id :: id in m ==> Lists(v.levels, id))
      && (DistinctKeys(m) ==> StrictlySorted(v.keys))
  {
    NothingListed();
    RunExact(side, NOTHING, map[], deltas);
    hide Run, TrackedRun, AllowedRun, AlwaysFindsOwn, AlwaysExact, SortedKeys;
    var v, m := Run(side, NOTHING, deltas), TrackedRun(side, map[], deltas);
    if DistinctKeys(m) {
      DistinctFindsOwn(v, m, Delta(None, 0.0, ""));
    }
  }

  const FIRST := Delta(Some(100.0), 1.0, "a")
  const SECOND := Delta(Some(100.0), 2.0, "b")
  const DELETE_FIRST := Delta(None, 0.0, "a")
  const ONE_LEVEL := View([100.0], [IdLevel(100.0, 1.0, "a")], map["a" := 100.0])
  const TWO_LEVELS := View([100.0, 100.0], [IdLevel(100.0, 2.0, "b"), IdLevel(100.0, 1.0, "a")],
                           map["a" := 100.0, "b" := 100.0])
  const WRONG_LEVEL := View([100.0], [IdLevel(100.0, 1.0, "a")], map["b" := 100.0])

  lemma StoreFirst()
    ensures Consistent(NOTHING) && Allowed(NOTHING, FIRST) && Step(false, NOTHING, FIRST) == ONE_LEVEL
    ensures Consistent(ONE_LEVEL)
  {
    NothingListed();
    hide Consistent;
    StepConsistent(false, NOTHING, FIRST);
    assert Position([], 100.0) == 0;
  }

  lemma StoreSecond()
    requires Consistent(ONE_LEVEL)
    ensures Allowed(ONE_LEVEL, SECOND) && Step(false, ONE_LEVEL, SECOND) == TWO_LEVELS
    ensures Consistent(TWO_LEVELS)
  {
    hide Consistent;
    StepConsistent(false, ONE_LEVEL, SECOND);
    assert Position(ONE_LEVEL.keys, 100.0) == 0;
  }

  lemma DeleteFirst()
    requires Consistent(TWO_LEVELS)
    ensures Allowed(TWO_LEVELS, DELETE_FIRST) && !FindsOwn(TWO_LEVELS, DELETE_FIRST)
    ensures Step(false, TWO_LEVELS, DELETE_FIRST) == WRONG_LEVEL
  {
    assert Position(TWO_LEVELS.keys, 100.0) == 0;
    assert TWO_LEVELS.hashmap - {"a"} == WRONG_LEVEL.hashmap;
  }

  /** Two live ids at one price: deleting the first leaves its level behind and drops the other one's. */
  lemma SharedPriceLosesALevel()
    ensures !FindsOwn(TWO_LEVELS, DELETE_FIRST)
    ensures Consistent(NOTHING) && AllowedRun(false, NOTHING, [FIRST, SECOND, DELETE_FIRST])
    ensures Run(false, NOTHING, [FIRST, SECOND, DELETE_FIRST]) == WRONG_LEVEL
  {
    hide *;
    StoreFirst();
    StoreSecond();
    DeleteFirst();
    StepConsistent(false, TWO_LEVELS, DELETE_FIRST);
    RunNothing(false, WRONG_LEVEL);
    RunOne(false, TWO_LEVELS, DELETE_FIRST, []);
    RunOne(false, ONE_LEVEL, SECOND, [DELETE_FIRST] + []);
    RunOne(false, NOTHING, FIRST, [SECOND] + ([DELETE_FIRST] + []));
    assert [FIRST] + ([SECOND] + ([DELETE_FIRST] + [])) == [FIRST, SECOND, DELETE_FIRST];
  }

  lemma RunNothing(side: bool, v: View)
    requires Consistent(v)
    ensures AllowedRun(side, v, []) && Run(side, v, []) == v
  {
  }

  lemma RunOne(side: bool, v: View, d: Delta, rest: seq<Delta>)
    requires Consistent(v) && Allowed(v, d) && Consistent(Step(side, v, d)) && AllowedRun(side, Step(side, v, d), rest)
    ensures AllowedRun(side, v, [d] + rest) && Run(side, v, [d] + rest) == Run(side, Step(side, v, d), rest)
  {
    hide Consistent, Allowed, Step;
    assert ([d] + rest)[1..] == rest;
  }

  // ----- the object --------------------------------------------------------

  class IndexedOrderBookSide {
    const side: bool
    var index: array<real>
    var levels: seq<IdLevel>
    var hashmap: map<LevelId, real>

    ghost function Visible(): View
      reads this, index
    {
      View(if |levels| <= index.Length then index[..|levels|] else [], levels, hashmap)
    }

    /** Sorted keys, then sentinels, in step with the levels. */
    ghost predicate Shape()
      reads this, index
    {
      |levels| < index.Length && IsIndex(index[..], Visible().keys) && SortedKeys(Visible().keys)
    }

    ghost predicate Valid()
      reads this, index
    {
      Shape() && Consistent(Visible())
    }

    constructor (side: bool)
      ensures Valid() && fresh(index) && this.side == side && Visible() == NOTHING
    {
      this.side := side;
      index := new real[SIZE](_ => MAX_VALUE);
      levels, hashmap := [], map[];
      new;
      NothingListed();
      assert index[..] == Sentinels(SIZE);
    }

    method Find(key: real) returns (i: nat)
      requires Shape() && key < MAX_VALUE
      ensures i == Position(Visible().keys, key)
    {
      hide IsIndex, SortedKeys;
      i := Locate(index, Visible().keys, key);
      SplitIsPosition(Visible().keys, key, i);
    }

    method RemoveAtPrice(key: real)
      requires Shape() && key < MAX_VALUE && Position(Visible().keys, key) < |Visible().keys|
      modifies this, index
      ensures Shape() && index == old(index)
      ensures Visible() == Removed(old(Visible()), key)
    {
      ghost var keys := Visible().keys;
      var i := Find(key);
      RemoveKey(index, keys, i, |levels|);
      RemoveKeepsSorted(keys, i);
      levels := RemoveAt(levels, i);
      hide SortedKeys, RemoveAt;
      IndexPrefix(index[..], RemoveAt(keys, i));
    }

    method InsertAtPrice(key: real, level: IdLevel)
      requires Shape() && key < MAX_VALUE
      modifies this, index
      ensures Shape() && (index == old(index) || fresh(index))
      ensures Visible() == Inserted(old(Visible()), key, level)
    {
      ghost var keys := Visible().keys;
      hashmap := hashmap[level.id := key];
      var i := Find(key);
      PositionSplits(keys, key);
      InsertKeepsSorted(keys, i, key);
      InsertKey(index, keys, i, key);
      levels := InsertAt(levels, i, level);
      hide SortedKeys, InsertAt;
      index := Grow(index, InsertAt(keys, i, key), |levels|);
      IndexPrefix(index[..], InsertAt(keys, i, key));
    }

    method StoreArray(delta: Delta)
      requires Valid() && Allowed(Visible(), delta)
      modifies this, index
      ensures Valid() && (index == old(index) || fresh(index))
      ensures Visible() == Step(side, old(Visible()), delta)
    {
      hide Consistent, IsIndex, Position, SortedKeys;
      var id, size := delta.id, delta.size;
      ghost var v := Visible();
      StepConsistent(side, v, delta);
      if size != 0.0 {
        if id in hashmap {
          var oldPrice := hashmap[id];
          LiveKeyIsFound(v, id);
          KeyBelowSentinel(side, v, delta);
          var indexPrice := UpdatedKey(side, delta.price, oldPrice);
          var level := IdLevel(RealAbs(indexPrice), size, id);
          if indexPrice == oldPrice {
            var i := Find(indexPrice);
            assert index[..][i] == v.keys[i];
            index[i] := indexPrice;
            levels := levels[i := level];
            assert index[..] == old(index[..]);
            return;
          }
          RemoveAtPrice(oldPrice);
          InsertAtPrice(indexPrice, level);
        } else {
          var price := delta.price.value;
          InsertAtPrice(KeyOf(side, price), IdLevel(price, size, id));
        }
      } else if id in hashmap {
        LiveKeyIsFound(v, id);
        RemoveAtPrice(hashmap[id]);
        hashmap := hashmap - {id};
      }
    }
  }

  lemma IndexPrefix(a: seq<real>, keys: seq<real>)
    requires IsIndex(a, keys)
    ensures a[..|keys|] == keys
  {
  }
}
