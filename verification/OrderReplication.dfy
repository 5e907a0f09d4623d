/** Replicating orders: the gatherer emits an order only when its state changed, the replica keeps a list by id. */
module OrderReplication {
  import opened Basics
  import opened Replication

  type OrderId = string

  /** The compared fields, undefined when None, and everything else an order carries. */
  datatype Order = Order(id: OrderId, status: Option<string>, filled: Option<real>, amount: Option<real>,
                         remaining: Option<real>, rest: map<string, string>)

  datatype Fields = Fields(status: Option<string>, filled: Option<real>, amount: Option<real>, remaining: Option<real>)

  const NO_FIELDS := Fields(None, None, None, None)

  function FieldsOf(o: Order): Fields {
    Fields(o.status, o.filled, o.amount, o.remaining)
  }

  /** Status, filled, amount and remaining are compared, and nothing else. */
  lemma SameFields(a: Order, b: Order)
    ensures FieldsOf(a) == FieldsOf(b) <==>
      a.status == b.status && a.filled == b.filled && a.amount == b.amount && a.remaining == b.remaining
    ensures FieldsOf(a) == NO_FIELDS <==>
      a.status.None? && a.filled.None? && a.amount.None? && a.remaining.None?
  {
  }

  /** The fields of the stored state; an order that is not stored compares as one without fields. */
  function StoredFields(hash: map<OrderId, Order>, id: OrderId): Fields {
    if id in hash then FieldsOf(hash[id]) else NO_FIELDS
  }

  // ----- the gatherer ------------------------------------------------------

  /** What a turn of the handler does with the store: it reads the stored order with an id, and it stores an order.
      Turns run side by side, and a stored order may expire at any time. */
  datatype Event = Looked(turn: nat, id: OrderId) | Saved(turn: nat, order: Order) | Expired(id: OrderId)

  /** The order hash, what each turn read last, and the stream of emitted orders. */
  datatype Progress = Progress(hash: map<OrderId, Order>, looked: map<nat, Fields>, log: seq<Order>)

  const START := Progress(map[], map[], [])

  function ReadBy(looked: map<nat, Fields>, turn: nat): Fields {
    if turn in looked then looked[turn] else NO_FIELDS
  }

  /** An order is emitted when its fields are not those its turn has read. */
  function Emitted(read: Fields, o: Order): seq<Order> {
    if read != FieldsOf(o) then [o] else []
  }

  function After(p: Progress, e: Event): Progress {
    match e
    case Looked(turn, id) => p.(looked := p.looked[turn := StoredFields(p.hash, id)])
    case Saved(turn, o) => p.(hash := p.hash[o.id := o], log := p.log + Emitted(ReadBy(p.looked, turn), o))
    case Expired(id) => p.(hash := p.hash - {id})
  }

  function AfterAll(p: Progress, run: seq<Event>): Progress {
    if run == [] then p else After(AfterAll(p, run[..|run| - 1]), run[|run| - 1])
  }

  /** A turn over some orders that nothing interrupts. */
  function TurnOf(turn: nat, orders: seq<Order>): seq<Event> {
    if orders == [] then []
    else
      var o := orders[|orders| - 1];
      TurnOf(turn, orders[..|orders| - 1]) + [Looked(turn, o.id), Saved(turn, o)]
  }

  lemma OneMoreInTurn(p: Progress, turn: nat, orders: seq<Order>, i: nat)
    requires i < |orders|
    ensures AfterAll(p, TurnOf(turn, orders[..i + 1])) ==
      After(After(AfterAll(p, TurnOf(turn, orders[..i])), Looked(turn, orders[i].id)), Saved(turn, orders[i]))
  {
    var before, a, b := TurnOf(turn, orders[..i]), Looked(turn, orders[i].id), Saved(turn, orders[i]);
    assert orders[..i + 1][..i] == orders[..i];
    assert before + [a, b] == before + [a] + [b];
    OneMoreAfter(p, before, a);
    OneMoreAfter(p, before + [a], b);
  }

  lemma OneMoreAfter(p: Progress, run: seq<Event>, e: Event)
    ensures AfterAll(p, run + [e]) == After(AfterAll(p, run), e)
  {
    assert (run + [e])[..|run|] == run;
  }

  class OrderGatherer {
    /** The order hash in Redis. */
    var hash: map<OrderId, Order>
    /** The compared fields each running turn has read last. */
    var looked: map<nat, Fields>
    /** The stream of emitted orders. */
    var log: seq<Order>

    ghost function View(): Progress
      reads this
    {
      Progress(hash, looked, log)
    }

    constructor ()
      ensures View() == START
    {
      hash, looked, log := map[], map[], [];
    }

    /** A turn up to the reply of hGet. */
    method Look(turn: nat, id: OrderId)
      modifies this
      ensures View() == After(old(View()), Looked(turn, id))
      ensures hash == old(hash) && log == old(log) && turn in looked && looked - {turn} == old(looked) - {turn}
      ensures looked[turn] == if id in hash
        then Fields(hash[id].status, hash[id].filled, hash[id].amount, hash[id].remaining)
        else Fields(None, None, None, None)
    {
      var prevState := if id in hash then Some(hash[id]) else None;
      looked := looked[turn := if prevState.Some? then FieldsOf(prevState.value) else NO_FIELDS];
    }

    /** The turn from there on: hSet, and the emission of a changed order. */
    method Save(turn: nat, order: Order)
      modifies this
      ensures View() == After(old(View()), Saved(turn, order))
      ensures hash == old(hash)[order.id := order] && looked == old(looked)
      ensures turn in looked ==>
        var read := looked[turn];
        log == old(log) + if read.status != order.status || read.filled != order.filled
          || read.amount != order.amount || read.remaining != order.remaining then [order] else []
    {
      hash := hash[order.id := order];
      var prevOrder := ReadBy(looked, turn);
      var stateChanged := prevOrder.status != order.status || prevOrder.filled != order.filled
        || prevOrder.amount != order.amount || prevOrder.remaining != order.remaining;
      assert log + [] == log;
      if stateChanged {
        log := log + [order];
      }
    }

    /** A turn that no other one interrupts. */
    method HandleOrders(turn: nat, orders: seq<Order>)
      modifies this
      ensures View() == AfterAll(old(View()), TurnOf(turn, orders))
    {
      hide AfterAll, TurnOf, After;
      ghost var p := View();
      NothingAfter(p, turn);
      assert orders[..0] == [];
      for i := 0 to |orders|
        invariant View() == AfterAll(p, TurnOf(turn, orders[..i]))
      {
        OneMoreInTurn(p, turn, orders, i);
        Look(turn, orders[i].id);
        Save(turn, orders[i]);
      }
      assert orders[..|orders|] == orders;
    }
  }

  lemma NothingAfter(p: Progress, turn: nat)
    ensures AfterAll(p, TurnOf(turn, [])) == p
  {
  }

  // ----- the replica -------------------------------------------------------

  function IndexOfId(orders: seq<Order>, id: OrderId): (k: int)
    ensures -1 <= k < |orders|
    ensures k == -1 ==> forall i :: 0 <= i < |orders| ==> orders[i].id != id
    ensures k >= 0 ==> orders[k].id == id
  {
    if orders == [] then -1
    else if orders[0].id == id then 0
    else
      var k := IndexOfId(orders[1..], id);
      if k == -1 then -1 else k + 1
  }

  /** Replace the order with this id, or put a new one in front. */
  function Upserted(orders: seq<Order>, o: Order): seq<Order> {
    var idx := IndexOfId(orders, o.id);
    if idx > -1 then orders[idx := o] else [o] + orders
  }

  /** The first order with this id is replaced and no other one touched; a new id comes in front. */
  ghost predicate IsUpserted(orders: seq<Order>, o: Order, r: seq<Order>) {
    && ((forall i :: 0 <= i < |orders| ==> orders[i].id != o.id) ==> r == [o] + orders)
    && (forall k :: 0 <= k < |orders| && orders[k].id == o.id && (forall i :: 0 <= i < k ==> orders[i].id != o.id) ==>
      && |r| == |orders| && r[k] == o
      && forall i :: 0 <= i < |orders| && i != k ==> r[i] == orders[i])
  }

  class OrderReplica {
    const cacheSize: nat
    var cache: map<string, seq<seq<Order>>>

    constructor (cacheSize: nat)
      ensures this.cacheSize == cacheSize && cache == map[]
    {
      this.cacheSize := cacheSize;
      cache := map[];
    }

    /** The newest list of orders under a key. */
    ghost function Newest(key: string): seq<Order>
      reads this
    {
      if key in cache && cache[key] != [] then cache[key][0] else []
    }

    method HandleOrdersMessage(key: string, data: Order)
      modifies this
      ensures cacheSize > 0 ==> Newest(key) == Upserted(old(Newest(key)), data)
      ensures cacheSize > 0 ==> IsUpserted(old(Newest(key)), data, Newest(key))
      ensures key in cache
      ensures cache[key] == Pushed(cacheSize, if key in old(cache) then old(cache)[key] else [], Upserted(old(Newest(key)), data))
      ensures forall k :: k != key ==> (k in cache <==> k in old(cache)) && (k in cache ==> cache[k] == old(cache)[k])
    {
      var orders := if key in cache && cache[key] != [] then cache[key][0] else [];
      UpsertedIs(orders, data);
      hide IsUpserted;
      var idx := IndexOfId(orders, data.id);
      if idx > -1 {
        orders := orders[idx := data];
      } else {
        orders := [data] + orders;
      }
      var cacheSlot := if key in cache then cache[key] else [];
      cacheSlot := [orders] + cacheSlot;
      cacheSlot := if |cacheSlot| > cacheSize then cacheSlot[..cacheSize] else cacheSlot;
      cache := cache[key := cacheSlot];
    }
  }

  // ----- whole runs --------------------------------------------------------

  /** Does the order carry any of the compared fields? Only then is its first sight a change. */
  predicate HasState(o: Order) {
    FieldsOf(o) != NO_FIELDS
  }

  function Gathering(run: seq<Event>): Progress {
    AfterAll(START, run)
  }

  /** The order stored last per id. */
  function Latest(run: seq<Event>): map<OrderId, Order> {
    if run == [] then map[]
    else
      var e := run[|run| - 1];
      if e.Saved? then Latest(run[..|run| - 1])[e.order.id := e.order] else Latest(run[..|run| - 1])
  }

  function Replayed(log: seq<Order>): seq<Order> {
    if log == [] then [] else Upserted(Replayed(log[..|log| - 1]), log[|log| - 1])
  }

  // ----- the list a log leaves ---------------------------------------------

  /** The first order with an id, -1 if there is none. */
  function FirstWith(log: seq<Order>, id: OrderId): (k: int)
    ensures -1 <= k < |log|
    ensures k == -1 ==> forall i :: 0 <= i < |log| ==> log[i].id != id
    ensures k >= 0 ==> log[k].id == id && forall i :: 0 <= i < k ==> log[i].id != id
  {
    if log == [] then -1
    else
      var k := FirstWith(log[..|log| - 1], id);
      if k == -1 && log[|log| - 1].id == id then |log| - 1 else k
  }

  /** The last order with an id, -1 if there is none. */
  function LastWith(log: seq<Order>, id: OrderId): (k: int)
    ensures -1 <= k < |log|
    ensures k == -1 ==> forall i :: 0 <= i < |log| ==> log[i].id != id
    ensures k >= 0 ==> log[k].id == id && forall i :: k < i < |log| ==> log[i].id != id
  {
    if log == [] then -1
    else if log[|log| - 1].id == id then |log| - 1
    else LastWith(log[..|log| - 1], id)
  }

  /** The last order of the log with its id. */
  ghost predicate IsLastOf(log: seq<Order>, e: Order) {
    LastWith(log, e.id) >= 0 && log[LastWith(log, e.id)] == e
  }

  /** One entry per id of the log: the last order with that id, whole; ids in the order of their first orders, the newest
      in front. */
  ghost predicate ListsLog(orders: seq<Order>, log: seq<Order>) {
    && (forall i :: 0 <= i < |orders| ==> IsLastOf(log, orders[i]))
    && (forall i, j :: 0 <= i < j < |orders| ==> FirstWith(log, orders[i].id) > FirstWith(log, orders[j].id))
    && forall id :: LastWith(log, id) >= 0 ==> IndexOfId(orders, id) >= 0
  }

  lemma WithMore(log: seq<Order>, o: Order, id: OrderId)
    ensures LastWith(log + [o], id) == if o.id == id then |log| else LastWith(log, id)
    ensures FirstWith(log + [o], id) == if FirstWith(log, id) == -1 && o.id == id then |log| else FirstWith(log, id)
    ensures FirstWith(log, id) == -1 <==> LastWith(log, id) == -1
    ensures forall k :: 0 <= k < |log| ==> (log + [o])[k] == log[k]
  {
    assert (log + [o])[..|log|] == log;
    var k, n := FirstWith(log, id), LastWith(log, id);
    assert k >= 0 ==> log[k].id == id;
    assert n >= 0 ==> log[n].id == id;
  }

  lemma UpsertedIs(orders: seq<Order>, o: Order)
    ensures IsUpserted(orders, o, Upserted(orders, o))
  {
    var idx := IndexOfId(orders, o.id);
    FirstOfId(orders, o.id);
  }

  lemma {:induction false} FirstOfId(orders: seq<Order>, id: OrderId)
    ensures var k := IndexOfId(orders, id); forall i :: 0 <= i < k ==> orders[i].id != id
  {
    if orders != [] && orders[0].id != id {
      FirstOfId(orders[1..], id);
      forall i | 0 <= i < IndexOfId(orders, id) ensures orders[i].id != id {
        assert i > 0 ==> orders[i] == orders[1..][i - 1];
      }
    }
  }

  lemma EntryStays(log: seq<Order>, o: Order, e: Order)
    requires IsLastOf(log, e)
    ensures 0 <= FirstWith(log + [o], e.id) == FirstWith(log, e.id) < |log|
    ensures e.id != o.id ==> IsLastOf(log + [o], e)
    ensures IsLastOf(log + [o], o)
  {
    WithMore(log, o, e.id);
    WithMore(log, o, o.id);
  }

  lemma ReplaceListsLog(orders: seq<Order>, log: seq<Order>, o: Order, idx: nat)
    requires ListsLog(orders, log) && idx < |orders| && orders[idx].id == o.id
    ensures ListsLog(orders[idx := o], log + [o])
  {
    hide IndexOfId, FirstWith, LastWith, IsLastOf;
    var r, all := orders[idx := o], log + [o];
    forall i | 0 <= i < |r|
      ensures r[i].id == orders[i].id && FirstWith(all, r[i].id) == FirstWith(log, orders[i].id)
      ensures IsLastOf(all, r[i])
    {
      EntryStays(log, o, orders[i]);
      assert orders[i].id == o.id ==> i == idx;
    }
    forall id | LastWith(all, id) >= 0 ensures IndexOfId(r, id) >= 0 {
      WithMore(log, o, id);
      IdIsListed(r, if id == o.id then idx else IndexOfId(orders, id));
    }
  }

  lemma AddListsLog(orders: seq<Order>, log: seq<Order>, o: Order)
    requires ListsLog(orders, log) && IndexOfId(orders, o.id) == -1
    ensures ListsLog([o] + orders, log + [o])
  {
    hide IndexOfId, FirstWith, LastWith, IsLastOf;
    var r, all := [o] + orders, log + [o];
    WithMore(log, o, o.id);
    NewIsFirst(log, o);
    forall i | 0 < i < |r|
      ensures r[i] == orders[i - 1] && IsLastOf(all, r[i])
      ensures FirstWith(all, r[i].id) == FirstWith(log, orders[i - 1].id) < |log|
    {
      EntryStays(log, o, orders[i - 1]);
    }
    forall id | LastWith(all, id) >= 0 ensures IndexOfId(r, id) >= 0 {
      WithMore(log, o, id);
      IdIsListed(r, if id == o.id then 0 else IndexOfId(orders, id) + 1);
    }
  }

  lemma NewIsFirst(log: seq<Order>, o: Order)
    ensures IsLastOf(log + [o], o)
    ensures LastWith(log, o.id) == -1 ==> FirstWith(log + [o], o.id) == |log|
  {
    WithMore(log, o, o.id);
  }

  lemma UpsertListsLog(orders: seq<Order>, log: seq<Order>, o: Order)
    requires ListsLog(orders, log)
    ensures ListsLog(Upserted(orders, o), log + [o])
  {
    hide ListsLog, IndexOfId;
    var idx := IndexOfId(orders, o.id);
    if idx > -1 {
      ReplaceListsLog(orders, log, o, idx);
    } else {
      AddListsLog(orders, log, o);
    }
  }

  /** Over every log, replaying it leaves exactly that list. */
  lemma {:induction false} ReplayedListsLog(log: seq<Order>)
    ensures ListsLog(Replayed(log), log)
  {
    if log != [] {
      ReplayedListsLog(log[..|log| - 1]);
      assert log == log[..|log| - 1] + [log[|log| - 1]];
      hide ListsLog, Upserted;
      UpsertListsLog(Replayed(log[..|log| - 1]), log[..|log| - 1], log[|log| - 1]);
    } else {
      assert Replayed(log) == [];
    }
  }

  /** One entry per id, for exactly the ids seen, each with the state of the latest order. */
  ghost predicate Mirrors(orders: seq<Order>, latest: map<OrderId, Order>) {
    && (forall i, j :: 0 <= i < j < |orders| ==> orders[i].id != orders[j].id)
    && (forall i :: 0 <= i < |orders| ==> orders[i].id in latest && FieldsOf(orders[i]) == FieldsOf(latest[orders[i].id]))
    && (forall id :: id in latest ==> IndexOfId(orders, id) >= 0)
  }

  lemma IdIsListed(orders: seq<Order>, i: nat)
    requires i < |orders|
    ensures IndexOfId(orders, orders[i].id) >= 0
  {
  }

  lemma ReplaceMirrors(orders: seq<Order>, latest: map<OrderId, Order>, o: Order, idx: nat)
    requires Mirrors(orders, latest) && idx < |orders| && orders[idx].id == o.id
    ensures Mirrors(orders[idx := o], latest[o.id := o])
  {
    hide IndexOfId;
    var r := orders[idx := o];
    assert forall i :: 0 <= i < |r| ==> r[i].id == orders[i].id;
    forall id | id in latest[o.id := o] ensures IndexOfId(r, id) >= 0 {
      IdIsListed(r, if id == o.id then idx else IndexOfId(orders, id));
    }
  }

  lemma AddMirrors(orders: seq<Order>, latest: map<OrderId, Order>, o: Order)
    requires Mirrors(orders, latest) && IndexOfId(orders, o.id) == -1
    ensures Mirrors([o] + orders, latest[o.id := o])
  {
    hide IndexOfId;
    var r := [o] + orders;
    assert forall i :: 0 < i < |r| ==> r[i] == orders[i - 1];
    forall id | id in latest[o.id := o] ensures IndexOfId(r, id) >= 0 {
      IdIsListed(r, if id == o.id then 0 else IndexOfId(orders, id) + 1);
    }
  }

  lemma UpsertMirrors(orders: seq<Order>, latest: map<OrderId, Order>, o: Order)
    requires Mirrors(orders, latest)
    ensures Mirrors(Upserted(orders, o), latest[o.id := o])
  {
    hide Mirrors, IndexOfId;
    var idx := IndexOfId(orders, o.id);
    if idx > -1 {
      ReplaceMirrors(orders, latest, o, idx);
    } else {
      AddMirrors(orders, latest, o);
    }
  }

  lemma SuppressedMirrors(orders: seq<Order>, latest: map<OrderId, Order>, o: Order)
    requires Mirrors(orders, latest) && o.id in latest && FieldsOf(latest[o.id]) == FieldsOf(o)
    ensures Mirrors(orders, latest[o.id := o])
  {
  }

  ghost predicate StoresLatest(hash: map<OrderId, Order>, latest: map<OrderId, Order>) {
    forall id :: id in hash ==> id in latest && hash[id] == latest[id]
  }

  /** What lets an order reach the replica in effect: its turn has read other fields, so that it is emitted, or the order
      stored last with its id carries the same fields. */
  predicate Reaches(read: Fields, latest: map<OrderId, Order>, o: Order) {
    read != FieldsOf(o) || (o.id in latest && FieldsOf(latest[o.id]) == FieldsOf(o))
  }

  /** A suppressed order is not mirrored by a replica that has no, or another, entry for it. */
  lemma DroppedMirrorsNot(orders: seq<Order>, latest: map<OrderId, Order>, o: Order)
    requires Mirrors(orders, latest) && (o.id in latest ==> FieldsOf(latest[o.id]) != FieldsOf(o))
    ensures !Mirrors(orders, latest[o.id := o])
  {
    hide FieldsOf;
    assert o.id in latest[o.id := o];
    var i := IndexOfId(orders, o.id);
    if i >= 0 {
      assert orders[i].id in latest;
    }
  }

  /** One more order is stored: the replica mirrors the stored orders if, and only if, the order reaches it. */
  lemma SavedMirrors(log: seq<Order>, latest: map<OrderId, Order>, read: Fields, o: Order)
    requires Mirrors(Replayed(log), latest)
    ensures Mirrors(Replayed(log + Emitted(read, o)), latest[o.id := o]) <==> Reaches(read, latest, o)
  {
    hide Mirrors, Upserted, FieldsOf;
    if read != FieldsOf(o) {
      assert (log + [o])[..|log|] == log;
      UpsertMirrors(Replayed(log), latest, o);
    } else {
      assert log + [] == log;
      if o.id in latest && FieldsOf(latest[o.id]) == FieldsOf(o) {
        SuppressedMirrors(Replayed(log), latest, o);
      } else {
        DroppedMirrorsNot(Replayed(log), latest, o);
      }
    }
  }

  lemma {:induction false} StoredIsLatest(run: seq<Event>)
    ensures StoresLatest(Gathering(run).hash, Latest(run))
  {
    hide Emitted;
    if run != [] {
      StoredIsLatest(run[..|run| - 1]);
    }
  }

  /** Every stored order of the run reaches the replica. */
  predicate AlwaysReaches(run: seq<Event>) {
    run == [] ||
      var before, e := run[..|run| - 1], run[|run| - 1];
      AlwaysReaches(before) &&
        (e.Saved? ==> Reaches(ReadBy(Gathering(before).looked, e.turn), Latest(before), e.order))
  }

  /** Before and behind every event, replaying the emitted orders mirrors the orders stored last. */
  ghost predicate AlwaysMirrors(run: seq<Event>) {
    && Mirrors(Replayed(Gathering(run).log), Latest(run))
    && (run != [] ==> AlwaysMirrors(run[..|run| - 1]))
  }

  lemma MirrorsAtEnd(run: seq<Event>)
    requires AlwaysMirrors(run)
    ensures Mirrors(Replayed(Gathering(run).log), Latest(run))
  {
  }

  /** Over every run, overlapping turns included, replaying only the emitted orders mirrors the orders stored last if,
      and only if, every order reaches the replica. */
  lemma {:induction false} ReplicaMirrors(run: seq<Event>)
    ensures AlwaysMirrors(run) <==> AlwaysReaches(run)
  {
    if run == [] {
      NothingMirrors();
    } else {
      var before, e := run[..|run| - 1], run[|run| - 1];
      ReplicaMirrors(before);
      hide Mirrors, Replayed, Emitted, Reaches;
      if AlwaysMirrors(before) {
        MirrorsAtEnd(before);
        if e.Saved? {
          SavedMirrors(Gathering(before).log, Latest(before), ReadBy(Gathering(before).looked, e.turn), e.order);
        }
      }
    }
  }

  lemma NothingMirrors()
    ensures Mirrors(Replayed([]), map[])
  {
  }

  // ----- turns that do not disturb each other ------------------------------

  /** What the turn has read is what is stored when it stores. */
  predicate ReadsFresh(p: Progress, turn: nat, o: Order) {
    ReadBy(p.looked, turn) == StoredFields(p.hash, o.id)
  }

  predicate AlwaysFresh(run: seq<Event>) {
    run == [] ||
      var before, e := run[..|run| - 1], run[|run| - 1];
      AlwaysFresh(before) && (e.Saved? ==> ReadsFresh(Gathering(before), e.turn, e.order))
  }

  /** What lets an order reach the replica when its turn has read what is stored: it carries a compared field, its id is
      still stored, or the order stored last with its id carried none either. */
  predicate ReachesStored(hash: map<OrderId, Order>, latest: map<OrderId, Order>, o: Order) {
    HasState(o) || o.id in hash || (o.id in latest && !HasState(latest[o.id]))
  }

  predicate AlwaysReachesStored(run: seq<Event>) {
    run == [] ||
      var before, e := run[..|run| - 1], run[|run| - 1];
      AlwaysReachesStored(before) && (e.Saved? ==> ReachesStored(Gathering(before).hash, Latest(before), e.order))
  }

  lemma FreshReaches(p: Progress, latest: map<OrderId, Order>, turn: nat, o: Order)
    requires StoresLatest(p.hash, latest) && ReadsFresh(p, turn, o)
    ensures Reaches(ReadBy(p.looked, turn), latest, o) <==> ReachesStored(p.hash, latest, o)
  {
  }

  lemma {:induction false} FreshRunReaches(run: seq<Event>)
    requires AlwaysFresh(run)
    ensures AlwaysReaches(run) <==> AlwaysReachesStored(run)
  {
    if run != [] {
      var before, e := run[..|run| - 1], run[|run| - 1];
      FreshRunReaches(before);
      StoredIsLatest(before);
      hide Gathering, Latest, Reaches, ReachesStored, ReadsFresh, StoresLatest;
      if e.Saved? {
        FreshReaches(Gathering(before), Latest(before), e.turn, e.order);
      }
    }
  }

  /** Over every run whose turns store on what is stored, the replica mirrors the orders stored last if, and only if,
      every order carries a compared field, is still stored, or follows one that carried none either. */
  lemma FreshRunMirrors(run: seq<Event>)
    requires AlwaysFresh(run)
    ensures AlwaysMirrors(run) <==> AlwaysReachesStored(run)
  {
    hide *;
    ReplicaMirrors(run);
    FreshRunReaches(run);
  }

  /** Would this event between reading and storing make the turn's reading stale or another one? */
  predicate Disturbs(e: Event, turn: nat, id: OrderId) {
    match e
    case Looked(t, _) => t == turn
    case Saved(_, o) => o.id == id
    case Expired(x) => x == id
  }

  /** The turn looked for the id at k, and nothing from there on disturbs it. */
  ghost predicate LookedAt(run: seq<Event>, k: int, turn: nat, id: OrderId) {
    0 <= k < |run| && run[k] == Looked(turn, id) && forall j :: k < j < |run| ==> !Disturbs(run[j], turn, id)
  }

  lemma {:induction false} UndisturbedIsFresh(run: seq<Event>, k: int, turn: nat, o: Order)
    requires LookedAt(run, k, turn, o.id)
    ensures ReadsFresh(Gathering(run), turn, o)
  {
    hide Emitted, FieldsOf;
    if k < |run| - 1 {
      var before := run[..|run| - 1];
      assert before[k] == run[k];
      assert forall j :: k < j < |before| ==> before[j] == run[j];
      UndisturbedIsFresh(before, k, turn, o);
    }
  }

  ghost predicate Undisturbed(run: seq<Event>, n: nat)
    requires n < |run|
  {
    run[n].Saved? ==> exists k :: LookedAt(run[..n], k, run[n].turn, run[n].order.id)
  }

  /** Runs in which no turn is disturbed between reading and storing. */
  lemma {:induction false} UndisturbedRunIsFresh(run: seq<Event>)
    requires forall n :: 0 <= n < |run| ==> Undisturbed(run, n)
    ensures AlwaysFresh(run)
  {
    if run != [] {
      var last := |run| - 1;
      var before := run[..last];
      forall n | 0 <= n < last ensures Undisturbed(before, n) {
        assert Undisturbed(run, n);
        assert before[..n] == run[..n] && before[n] == run[n];
      }
      UndisturbedRunIsFresh(before);
      hide Gathering, ReadsFresh, LookedAt;
      if run[last].Saved? {
        assert Undisturbed(run, last);
        var k :| LookedAt(run[..last], k, run[last].turn, run[last].order.id);
        UndisturbedIsFresh(before, k, run[last].turn, run[last].order);
      }
    }
  }

  lemma {:induction false} StatesReachStored(run: seq<Event>)
    requires forall i :: 0 <= i < |run| && run[i].Saved? ==> HasState(run[i].order)
    ensures AlwaysReachesStored(run)
  {
    hide HasState, Gathering, Latest;
    if run != [] {
      StatesReachStored(run[..|run| - 1]);
    }
  }

  /** With undisturbed turns and a compared field on every order, the replica always mirrors the orders stored last. */
  lemma StatesReach(run: seq<Event>)
    requires forall n :: 0 <= n < |run| ==> Undisturbed(run, n)
    requires forall i :: 0 <= i < |run| && run[i].Saved? ==> HasState(run[i].order)
    ensures AlwaysMirrors(run)
  {
    hide AlwaysMirrors, AlwaysFresh, AlwaysReachesStored, Undisturbed, HasState;
    UndisturbedRunIsFresh(run);
    StatesReachStored(run);
    FreshRunMirrors(run);
  }

  /** Behind any run, a turn with an order that is not stored emits it exactly when it carries a compared field. */
  lemma StatelessIsDropped(run: seq<Event>, turn: nat, o: Order)
    requires o.id !in Gathering(run).hash
    ensures Gathering(run + TurnOf(turn, [o])).log == Gathering(run).log + if HasState(o) then [o] else []
  {
    AfterAllConcat(START, run, TurnOf(turn, [o]));
    assert [o][..0] == [] && TurnOf(turn, []) == [];
    OneMoreInTurn(Gathering(run), turn, [o], 0);
    assert [o][..1] == [o];
    hide FieldsOf;
  }

  lemma {:induction false} AfterAllConcat(p: Progress, a: seq<Event>, b: seq<Event>)
    ensures AfterAll(p, a + b) == AfterAll(AfterAll(p, a), b)
  {
    hide After;
    if b == [] {
      assert a + b == a;
    } else {
      AfterAllConcat(p, a, b[..|b| - 1]);
      assert (a + b)[..|a + b| - 1] == a + b[..|b| - 1];
    }
  }

  /** An uninterrupted turn of the gatherer object extends the run by its reads and stores. */
  lemma TurnExtendsRun(run: seq<Event>, turn: nat, orders: seq<Order>)
    ensures Gathering(run + TurnOf(turn, orders)) == AfterAll(Gathering(run), TurnOf(turn, orders))
  {
    hide AfterAll, TurnOf;
    AfterAllConcat(START, run, TurnOf(turn, orders));
  }

  lemma UndisturbedPrefix(run: seq<Event>, more: seq<Event>, n: nat)
    requires n < |run| && Undisturbed(run, n)
    ensures n < |run + more| && Undisturbed(run + more, n)
  {
    assert (run + more)[..n] == run[..n] && (run + more)[n] == run[n];
  }

  /** A turn that nothing interrupts is undisturbed, whatever ran before it. */
  lemma {:induction false} TurnIsUndisturbed(run: seq<Event>, turn: nat, orders: seq<Order>)
    requires forall n :: 0 <= n < |run| ==> Undisturbed(run, n)
    ensures forall n :: 0 <= n < |run + TurnOf(turn, orders)| ==> Undisturbed(run + TurnOf(turn, orders), n)
  {
    if orders == [] {
      assert run + TurnOf(turn, orders) == run;
    } else {
      var o := orders[|orders| - 1];
      var before := run + TurnOf(turn, orders[..|orders| - 1]);
      TurnIsUndisturbed(run, turn, orders[..|orders| - 1]);
      assert run + TurnOf(turn, orders) == before + [Looked(turn, o.id), Saved(turn, o)];
      hide TurnOf, Undisturbed;
      StepIsUndisturbed(before, turn, o);
    }
  }

  lemma StepIsUndisturbed(run: seq<Event>, turn: nat, o: Order)
    requires forall n :: 0 <= n < |run| ==> Undisturbed(run, n)
    ensures var all := run + [Looked(turn, o.id), Saved(turn, o)];
      forall n :: 0 <= n < |all| ==> Undisturbed(all, n)
  {
    var more := [Looked(turn, o.id), Saved(turn, o)];
    var all := run + more;
    forall n | 0 <= n < |all| ensures Undisturbed(all, n) {
      if n < |run| {
        UndisturbedPrefix(run, more, n);
      } else if n == |run| + 1 {
        assert all[n] == Saved(turn, o);
        assert all[..n][|run|] == Looked(turn, o.id);
        assert LookedAt(all[..n], |run|, turn, o.id);
      }
    }
  }

  // ----- two ways to lose an order -----------------------------------------

  const OPEN := Order("1", Some("open"), None, None, None, map[])
  const CLOSED := Order("1", Some("closed"), None, None, None, map[])
  const BARE := Order("1", None, None, None, None, map[])

  lemma OneMoreEvent(run: seq<Event>, e: Event)
    ensures Gathering(run + [e]) == After(Gathering(run), e)
    ensures Latest(run + [e]) == if e.Saved? then Latest(run)[e.order.id := e.order] else Latest(run)
    ensures AlwaysReaches(run + [e]) <==>
      AlwaysReaches(run) && (e.Saved? ==> Reaches(ReadBy(Gathering(run).looked, e.turn), Latest(run), e.order))
  {
    assert (run + [e])[..|run|] == run;
  }

  const OPENED := [Looked(0, "1"), Saved(0, OPEN)]
  const OPENED_PROGRESS := Progress(map["1" := OPEN], map[0 := NO_FIELDS], [OPEN])

  lemma RunToOpen()
    ensures Gathering(OPENED) == OPENED_PROGRESS && Latest(OPENED) == map["1" := OPEN]
  {
    OneMoreEvent([], Looked(0, "1"));
    OneMoreEvent([Looked(0, "1")], Saved(0, OPEN));
    assert [] + [Looked(0, "1")] == [Looked(0, "1")] && [Looked(0, "1")] + [Saved(0, OPEN)] == OPENED;
  }

  const STALE_RUN := OPENED + [Expired("1")] + [Looked(0, "1")] + [Saved(0, BARE)]

  /** Stored with a status, expired, stored without fields: nothing is emitted, and the replica keeps the status. */
  lemma StaleAfterExpiry()
    ensures !AlwaysReaches(STALE_RUN) && Gathering(STALE_RUN).log == [OPEN] && Replayed([OPEN]) == [OPEN]
    ensures Latest(STALE_RUN) == map["1" := BARE]
  {
    RunToOpen();
    hide AlwaysReaches, Latest, Gathering;
    OneMoreEvent(OPENED, Expired("1"));
    OneMoreEvent(OPENED + [Expired("1")], Looked(0, "1"));
    OneMoreEvent(OPENED + [Expired("1")] + [Looked(0, "1")], Saved(0, BARE));
    assert map["1" := OPEN] - {"1"} == map[];
    ReplayedOpen();
  }

  lemma ReplayedOpen()
    ensures Replayed([OPEN]) == [OPEN] && Replayed([OPEN, CLOSED]) == [CLOSED]
  {
    assert [OPEN][..0] == [] && [OPEN, CLOSED][..1] == [OPEN];
    assert Upserted([], OPEN) == [OPEN] && Upserted([OPEN], CLOSED) == [CLOSED];
  }

  const BOTH_LOOKED := OPENED + [Looked(1, "1")] + [Looked(2, "1")]
  const OVERLAP_RUN := BOTH_LOOKED + [Saved(1, CLOSED)] + [Saved(2, OPEN)]

  /** Two turns read an open order before either stores: the stale one stores it again without emitting it, and the
      replica keeps the other's. */
  lemma OverlapLosesOrder()
    ensures !AlwaysReaches(OVERLAP_RUN) && Gathering(OVERLAP_RUN).log == [OPEN, CLOSED]
    ensures Replayed([OPEN, CLOSED]) == [CLOSED]
    ensures Latest(OVERLAP_RUN) == map["1" := OPEN] == Gathering(OVERLAP_RUN).hash
  {
    RunToOpen();
    hide AlwaysReaches, Latest, Gathering;
    OneMoreEvent(OPENED, Looked(1, "1"));
    OneMoreEvent(OPENED + [Looked(1, "1")], Looked(2, "1"));
    OneMoreEvent(BOTH_LOOKED, Saved(1, CLOSED));
    OneMoreEvent(BOTH_LOOKED + [Saved(1, CLOSED)], Saved(2, OPEN));
    ReplayedOpen();
  }
}
