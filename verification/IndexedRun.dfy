/** What a run of deltas leaves on an indexed side, told from the deltas alone. */
module IndexedRuns {
  import opened Basics
  import opened SortedIndex
  import opened IndexedSides

  /** The last delta of an id, -1 if there is none. */
  function LastOf(deltas: seq<Delta>, id: LevelId): (k: int)
    ensures -1 <= k < |deltas|
    ensures k >= 0 ==> deltas[k].id == id
    ensures forall i :: k < i < |deltas| ==> deltas[i].id != id
  {
    if deltas == [] then -1
    else if deltas[|deltas| - 1].id == id then |deltas| - 1
    else LastOf(deltas[..|deltas| - 1], id)
  }

  /** Nothing was stored for the id, or it was deleted since. */
  predicate IsMissing(deltas: seq<Delta>, id: LevelId) {
    var k := LastOf(deltas, id);
    k == -1 || deltas[k].size == 0.0
  }

  /** The j-th delta finds its id missing. */
  predicate IsNew(deltas: seq<Delta>, j: nat)
    requires j < |deltas|
  {
    IsMissing(deltas[..j], deltas[j].id)
  }

  ghost predicate PricesNewIds(deltas: seq<Delta>) {
    forall j :: 0 <= j < |deltas| && IsNew(deltas, j) && deltas[j].size != 0.0 ==> deltas[j].price.Some?
  }

  predicate KeepsPrice(d: Delta) {
    d.size != 0.0 && (d.price.None? || d.price.value == 0.0)
  }

  /** The j-th delta gave the id its price, and later ones only changed the size. */
  ghost predicate PricedAt(deltas: seq<Delta>, j: nat, id: LevelId) {
    && j < |deltas| && deltas[j].id == id && deltas[j].size != 0.0 && deltas[j].price.Some?
    && (IsNew(deltas, j) || deltas[j].price.value != 0.0)
    && forall i :: j < i < |deltas| && deltas[i].id == id ==> KeepsPrice(deltas[i])
  }

  /** The key is that price, negated for bids; the level shows it, without its sign once the level was updated. */
  ghost predicate HasPrice(side: bool, deltas: seq<Delta>, j: nat, e: Entry)
    requires j < |deltas| && deltas[j].price.Some?
  {
    var p := deltas[j].price.value;
    && e.key == (if side then -p else p)
    && e.level.price == if p >= 0.0 || (IsNew(deltas, j) && LastOf(deltas, deltas[j].id) == j) then p else -p
  }

  ghost predicate TellsEntry(side: bool, deltas: seq<Delta>, id: LevelId, e: Entry) {
    && LastOf(deltas, id) >= 0 && e.level.id == id && e.level.size == deltas[LastOf(deltas, id)].size
    && exists j :: PricedAt(deltas, j, id) && HasPrice(side, deltas, j, e)
  }

  // ----- one more delta ----------------------------------------------------

  lemma {:induction false} TrackedMore(side: bool, m: map<LevelId, Entry>, deltas: seq<Delta>, d: Delta)
    ensures TrackedRun(side, m, deltas + [d]) == Tracked(side, TrackedRun(side, m, deltas), d)
    decreases deltas
  {
    hide Tracked;
    if deltas == [] {
      assert [d][1..] == [];
      assert TrackedRun(side, m, [d]) == TrackedRun(side, Tracked(side, m, d), []);
    } else {
      TrackedMore(side, Tracked(side, m, deltas[0]), deltas[1..], d);
      assert (deltas + [d])[1..] == deltas[1..] + [d];
    }
  }

  lemma {:induction false} RunMore(side: bool, v: View, deltas: seq<Delta>, d: Delta)
    requires Consistent(v) && AllowedRun(side, v, deltas + [d])
    ensures AllowedRun(side, v, deltas) && Allowed(Run(side, v, deltas), d)
    ensures Run(side, v, deltas + [d]) == Step(side, Run(side, v, deltas), d)
    decreases deltas
  {
    hide Consistent, Allowed, Step;
    var all := deltas + [d];
    StepConsistent(side, v, all[0]);
    if deltas == [] {
      assert all[1..] == [];
    } else {
      assert all[1..] == deltas[1..] + [d];
      RunMore(side, Step(side, v, deltas[0]), deltas[1..], d);
    }
  }

  lemma LastOfMore(deltas: seq<Delta>, d: Delta, id: LevelId)
    ensures LastOf(deltas + [d], id) == if d.id == id then |deltas| else LastOf(deltas, id)
  {
    assert (deltas + [d])[..|deltas|] == deltas;
  }

  lemma IsNewMore(deltas: seq<Delta>, d: Delta, j: nat)
    requires j < |deltas|
    ensures IsNew(deltas + [d], j) == IsNew(deltas, j)
  {
    assert (deltas + [d])[..j] == deltas[..j];
  }

  lemma IsNewAtEnd(deltas: seq<Delta>, d: Delta)
    ensures IsNew(deltas + [d], |deltas|) <==> IsMissing(deltas, d.id)
  {
    assert (deltas + [d])[..|deltas|] == deltas;
  }

  /** A delta that keeps the id's price, or is another id's. */
  lemma StillPriced(side: bool, deltas: seq<Delta>, d: Delta, id: LevelId, e: Entry, r: Entry)
    requires TellsEntry(side, deltas, id, e) && (d.id == id ==> KeepsPrice(d))
    requires r.key == e.key && r.level.id == id
    requires if d.id == id then r.level.size == d.size && r.level.price == RealAbs(e.key) else r == e
    ensures TellsEntry(side, deltas + [d], id, r)
  {
    var all := deltas + [d];
    var j: nat :| PricedAt(deltas, j, id) && HasPrice(side, deltas, j, e);
    LastOfMore(deltas, d, id);
    IsNewMore(deltas, d, j);
    hide IsNew, LastOf;
    assert all[j] == deltas[j];
    forall i | j < i < |all| && all[i].id == id ensures KeepsPrice(all[i]) {
      assert i < |deltas| ==> all[i] == deltas[i];
    }
    assert PricedAt(all, j, id);
    assert HasPrice(side, all, j, r);
  }

  /** A delta that gives the id its price. */
  lemma NewlyPriced(side: bool, deltas: seq<Delta>, d: Delta, e: Entry)
    requires d.size != 0.0 && d.price.Some?
    requires if IsMissing(deltas, d.id) then e.level.price == d.price.value
      else d.price.value != 0.0 && e.level.price == RealAbs(d.price.value)
    requires e.key == KeyOf(side, d.price.value) && e.level.id == d.id && e.level.size == d.size
    ensures TellsEntry(side, deltas + [d], d.id, e)
  {
    var all, j := deltas + [d], |deltas|;
    LastOfMore(deltas, d, d.id);
    IsNewAtEnd(deltas, d);
    hide IsNew, LastOf;
    assert all[j] == d;
    assert PricedAt(all, j, d.id);
    assert HasPrice(side, all, j, e);
  }

  ghost predicate Tells(side: bool, deltas: seq<Delta>, m: map<LevelId, Entry>) {
    && (forall id :: id in m <==> LastOf(deltas, id) >= 0 && deltas[LastOf(deltas, id)].size != 0.0)
    && forall id :: id in m ==> TellsEntry(side, deltas, id, m[id])
  }

  lemma TrackedTells(side: bool, deltas: seq<Delta>, d: Delta, m: map<LevelId, Entry>, id: LevelId)
    requires Tells(side, deltas, m) && (d.id !in m && d.size != 0.0 ==> d.price.Some?)
    ensures var r, all := Tracked(side, m, d), deltas + [d];
      && (id in r <==> LastOf(all, id) >= 0 && all[LastOf(all, id)].size != 0.0)
      && (id in r ==> TellsEntry(side, all, id, r[id]))
  {
    LastOfMore(deltas, d, id);
    var r := Tracked(side, m, d);
    if d.id != id {
      hide LastOf, TellsEntry;
      if id in m {
        StillPriced(side, deltas, d, id, m[id], r[id]);
      }
    } else if d.size != 0.0 {
      hide LastOf, TellsEntry;
      if id in m && KeepsPrice(d) {
        StillPriced(side, deltas, d, id, m[id], r[id]);
      } else {
        NewlyPriced(side, deltas, d, r[id]);
      }
    }
  }

  // ----- whole runs --------------------------------------------------------

  lemma NewIdsMore(deltas: seq<Delta>, d: Delta)
    requires PricesNewIds(deltas + [d])
    ensures PricesNewIds(deltas)
    ensures IsMissing(deltas, d.id) && d.size != 0.0 ==> d.price.Some?
  {
    var all := deltas + [d];
    IsNewAtEnd(deltas, d);
    assert all[|deltas|] == d;
    forall j | 0 <= j < |deltas| ensures all[j] == deltas[j] && IsNew(all, j) == IsNew(deltas, j) {
      IsNewMore(deltas, d, j);
    }
    hide IsNew;
  }

  /** Over every run that prices its new ids: an id lives exactly when its last delta has a size; it has that size, and
      the price last given to it since it was new, where a missing price and a price of zero give none. */
  lemma {:induction false} RunTells(side: bool, deltas: seq<Delta>)
    requires PricesNewIds(deltas)
    ensures Tells(side, deltas, TrackedRun(side, map[], deltas))
  {
    if deltas != [] {
      var before, d := deltas[..|deltas| - 1], deltas[|deltas| - 1];
      assert deltas == before + [d];
      NewIdsMore(before, d);
      RunTells(side, before);
      TrackedMore(side, map[], before, d);
      hide *;
      TellsMore(side, before, d, TrackedRun(side, map[], before));
    } else {
      hide TellsEntry;
    }
  }

  lemma TellsMore(side: bool, deltas: seq<Delta>, d: Delta, m: map<LevelId, Entry>)
    requires Tells(side, deltas, m) && (IsMissing(deltas, d.id) && d.size != 0.0 ==> d.price.Some?)
    ensures Tells(side, deltas + [d], Tracked(side, m, d))
  {
    hide Tracked, TellsEntry, LastOf;
    var r, all := Tracked(side, m, d), deltas + [d];
    forall id
      ensures id in r <==> LastOf(all, id) >= 0 && all[LastOf(all, id)].size != 0.0
      ensures id in r ==> TellsEntry(side, all, id, r[id])
    {
      TrackedTells(side, deltas, d, m, id);
    }
  }

  lemma HashmapStep(side: bool, v: View, m: map<LevelId, Entry>, d: Delta)
    requires Consistent(v) && Allowed(v, d) && HoldsKeys(v.hashmap, m)
    ensures HoldsKeys(Step(side, v, d).hashmap, Tracked(side, m, d))
  {
    hide Consistent, Position;
    if d.id in v.hashmap {
      LiveKeyIsFound(v, d.id);
    }
  }

  /** Whatever levels its searches hit, the id map of an indexed side holds the keys of that law, and the run prices its
      new ids. */
  lemma {:induction false} RunHolds(side: bool, deltas: seq<Delta>)
    requires Consistent(NOTHING) && AllowedRun(side, NOTHING, deltas)
    ensures PricesNewIds(deltas)
    ensures HoldsKeys(Run(side, NOTHING, deltas).hashmap, TrackedRun(side, map[], deltas))
  {
    if deltas != [] {
      var before, d := deltas[..|deltas| - 1], deltas[|deltas| - 1];
      assert deltas == before + [d];
      RunMore(side, NOTHING, before, d);
      RunHolds(side, before);
      RunTells(side, before);
      TrackedMore(side, map[], before, d);
      var v, m := Run(side, NOTHING, before), TrackedRun(side, map[], before);
      hide *;
      HashmapStep(side, v, m, d);
      MissingIsNew(side, before, d, v, m);
      NewIdsStep(before, d);
    } else {
      assert TrackedRun(side, map[], []) == map[] && Run(side, NOTHING, []) == NOTHING;
    }
  }

  lemma MissingIsNew(side: bool, deltas: seq<Delta>, d: Delta, v: View, m: map<LevelId, Entry>)
    requires Tells(side, deltas, m) && HoldsKeys(v.hashmap, m) && Allowed(v, d)
    ensures IsMissing(deltas, d.id) && d.size != 0.0 ==> d.price.Some?
  {
    hide TellsEntry, LastOf;
  }

  lemma NewIdsStep(deltas: seq<Delta>, d: Delta)
    requires PricesNewIds(deltas) && (IsMissing(deltas, d.id) && d.size != 0.0 ==> d.price.Some?)
    ensures PricesNewIds(deltas + [d])
  {
    var all := deltas + [d];
    IsNewAtEnd(deltas, d);
    forall j | 0 <= j < |deltas| ensures all[j] == deltas[j] && IsNew(all, j) == IsNew(deltas, j) {
      IsNewMore(deltas, d, j);
    }
    hide IsNew;
  }

  const BELOW_ZERO := [Delta(Some(-1.0), 1.0, "a"), Delta(None, 2.0, "a")]

  /** A level at minus one is shown at one once its size was updated. */
  lemma UpdateLosesSign()
    ensures TrackedRun(false, map[], BELOW_ZERO) == map["a" := Entry(-1.0, IdLevel(1.0, 2.0, "a"))]
  {
    var first, second := BELOW_ZERO[0], BELOW_ZERO[1];
    var m := map["a" := Entry(-1.0, IdLevel(-1.0, 1.0, "a"))];
    assert Tracked(false, map[], first) == m;
    TrackedMore(false, map[], [], first);
    TrackedMore(false, map[], [first], second);
    assert [] + [first] == [first] && [first] + [second] == BELOW_ZERO;
    assert TrackedRun(false, map[], []) == map[];
  }

  // ----- whatever level the search hits ------------------------------------

  /** The level a delta stores. */
  ghost predicate IsStoredLevel(v: View, d: Delta, level: IdLevel) {
    && level.id == d.id && level.size == d.size
    && if d.id !in v.hashmap then d.price == Some(level.price)
       else level.price == RealAbs(if KeepsPrice(d) || d.price.None? then v.hashmap[d.id] else d.price.value)
  }

  lemma LevelsInserted(levels: seq<IdLevel>, i: nat, level: IdLevel)
    requires i <= |levels|
    ensures multiset(InsertAt(levels, i, level)) == multiset(levels) + multiset{level}
  {
    assert levels == levels[..i] + levels[i..];
  }

  lemma LevelsRemoved(levels: seq<IdLevel>, i: nat)
    requires i < |levels|
    ensures multiset(RemoveAt(levels, i)) == multiset(levels) - multiset{levels[i]}
  {
    assert levels == levels[..i] + [levels[i]] + levels[i + 1..];
  }

  lemma LevelsReplaced(levels: seq<IdLevel>, i: nat, level: IdLevel)
    requires i < |levels|
    ensures multiset(levels[i := level]) == multiset(levels) - multiset{levels[i]} + multiset{level}
  {
  }

  /** A delta of a live id takes out one level, the first at the key the id map holds for it, whether or not it is the
      id's own, and every delta with a size puts in the level it stores; nothing else changes. */
  lemma StepReplaces(side: bool, v: View, d: Delta, i: nat) returns (level: IdLevel)
    requires Consistent(v) && Allowed(v, d)
    requires d.id in v.hashmap ==>
      i < |v.levels| && v.keys[i] == v.hashmap[d.id] && forall j :: 0 <= j < i ==> v.keys[j] < v.keys[i]
    ensures d.size != 0.0 ==> IsStoredLevel(v, d, level)
    ensures multiset(Step(side, v, d).levels) == multiset(v.levels)
      - (if d.id in v.hashmap then multiset{v.levels[i]} else multiset{})
      + (if d.size != 0.0 then multiset{level} else multiset{})
  {
    hide InsertAt, RemoveAt, SortedKeys;
    if d.id in v.hashmap {
      PositionIs(v.keys, v.hashmap[d.id], i);
      LevelsRemoved(v.levels, i);
      var key := UpdatedKey(side, d.price, v.hashmap[d.id]);
      level := IdLevel(RealAbs(key), d.size, d.id);
      LevelsReplaced(v.levels, i, level);
      var rest := RemoveAt(v.levels, i);
      LevelsInserted(rest, Position(RemoveAt(v.keys, i), key), level);
    } else {
      level := IdLevel(if d.price.Some? then d.price.value else 0.0, d.size, d.id);
      LevelsInserted(v.levels, Position(v.keys, KeyOf(side, level.price)), level);
    }
  }
}
