/** A replica that missed part of the log: when it is in step again, and what joining at a stream position misses. */
module Rejoining {
  import opened Basics
  import opened SortedIndex
  import opened Replication

  function SideOf(b: Book, side: bool): seq<Quote> {
    if side then b.bids else b.asks
  }

  ghost predicate Agrees(a: Book, b: Book, side: bool, x: Quote) {
    multiset(SideOf(a, side))[x] == multiset(SideOf(b, side))[x]
  }

  ghost predicate AllAgree(a: Book, b: Book) {
    forall side, x :: Agrees(a, b, side, x)
  }

  ghost predicate IsSorted(b: Book) {
    Ordered(false, b.asks) && Ordered(true, b.bids)
  }

  ghost predicate Leaves(a: Book, b: Book, side: bool, x: Quote) {
    x in SideOf(a, side) && x !in SideOf(b, side)
  }

  ghost predicate LeavesAt(run: seq<Observation>, i: nat, side: bool, x: Quote)
    requires 0 < i < |run|
  {
    Leaves(run[i - 1].book, run[i].book, side, x)
  }

  /** The quote leaves the observed book behind the first n observations. */
  ghost predicate HasLeft(run: seq<Observation>, n: nat, side: bool, x: Quote)
    requires n > 0
  {
    exists i :: n <= i < |run| && LeavesAt(run, i, side, x)
  }

  /** What is published behind the first n observations. */
  function Since(start: int, run: seq<Observation>, n: nat): seq<Message> {
    if |run| <= n then []
    else
      var before := run[..|run| - 1];
      Since(start, before, n) + Published(Gathering(start, before).0, run[|run| - 1])
  }

  ghost predicate HasSnapshot(log: seq<Message>) {
    exists k :: 0 <= k < |log| && log[k].Snapshot?
  }

  lemma {:induction false} LogIsSplit(start: int, run: seq<Observation>, n: nat)
    requires n <= |run|
    ensures Gathering(start, run).1 == Gathering(start, run[..n]).1 + Since(start, run, n)
  {
    hide Published;
    if n < |run| {
      LogIsSplit(start, run[..|run| - 1], n);
      assert run[..|run| - 1][..n] == run[..n];
    } else {
      assert run[..n] == run;
    }
  }

  ghost predicate IsRepairedAt(first: Book, run: seq<Observation>, n: nat, side: bool, x: Quote)
    requires 0 < n <= |run|
  {
    Agrees(first, run[n - 1].book, side, x) || HasLeft(run, n, side, x)
  }

  /** Every quote the book had wrong at the n-th observation has left the observed book since. */
  ghost predicate IsRepaired(first: Book, run: seq<Observation>, n: nat)
    requires 0 < n <= |run|
  {
    forall side, x :: IsRepairedAt(first, run, n, side, x)
  }

  // ----- one more observation ----------------------------------------------

  /** Where a side agreed with the gatherer's it still does, and elsewhere it does again for the quotes that leave. */
  lemma PatchAgrees(side: bool, held: seq<Quote>, prior: seq<Quote>, next: seq<Quote>, x: Quote)
    requires IsSide(side, prior) && IsSide(side, next)
    ensures var r := Patched(side, held, DiffOf(prior, next));
      && Ordered(side, r)
      && (multiset(r)[x] == multiset(next)[x] <==>
        multiset(held)[x] == multiset(prior)[x] || (x in prior && x !in next))
  {
    var d := DiffOf(prior, next);
    var kept := Minus(held, d.remove);
    SortByIsOrdered(side, kept + d.add);
    MinusCounts(held, d.remove, x);
    MinusCounts(next, prior, x);
    SideCounts(side, prior, x);
    SideCounts(side, next, x);
    assert multiset(kept + d.add)[x] == multiset(kept)[x] + multiset(d.add)[x];
  }

  lemma SameBookAgrees(a: Book, b: Book)
    requires IsSorted(a) && IsBook(b)
    ensures SameSides(a, b) <==> AllAgree(a, b)
  {
    hide Ordered, IsSide;
    if AllAgree(a, b) {
      forall x ensures multiset(a.asks)[x] == multiset(b.asks)[x] {
        assert Agrees(a, b, false, x);
      }
      forall x ensures multiset(a.bids)[x] == multiset(b.bids)[x] {
        assert Agrees(a, b, true, x);
      }
      OrderedIsUnique(false, a.asks, b.asks);
      OrderedIsUnique(true, a.bids, b.bids);
    }
  }

  lemma BookIsSorted(a: Book, b: Book)
    requires IsBook(b) && SameSides(a, b)
    ensures IsSorted(a)
  {
  }

  ghost predicate IsDiff(m: Message, last: Book, next: Book) {
    m.Deltas? && m.asks == DiffOf(last.asks, next.asks) && m.bids == DiffOf(last.bids, next.bids)
  }

  /** Deltas at a replica in any state. */
  lemma PatchedBookAgrees(held: Book, last: Book, next: Book, m: Message)
    requires IsBook(last) && IsBook(next) && IsDiff(m, last, next)
    ensures IsSorted(PatchedBook(held, m))
    ensures forall side, x :: Agrees(PatchedBook(held, m), next, side, x) <==>
      Agrees(held, last, side, x) || Leaves(last, next, side, x)
  {
    hide Ordered, IsSide, Patched, DiffOf;
    PatchAgrees(false, held.asks, last.asks, next.asks, Quote(0.0, 0.0));
    PatchAgrees(true, held.bids, last.bids, next.bids, Quote(0.0, 0.0));
    forall side, x
      ensures Agrees(PatchedBook(held, m), next, side, x) <==>
        Agrees(held, last, side, x) || Leaves(last, next, side, x)
    {
      PatchAgrees(side, SideOf(held, side), SideOf(last, side), SideOf(next, side), x);
    }
  }

  lemma OneReplayed(cacheSize: nat, slots: seq<Book>, m: Message)
    ensures Replayed(cacheSize, slots, [m]) == Handled(cacheSize, slots, m) && Replayed(cacheSize, slots, []) == slots
  {
    assert [m][..0] == [];
    assert Replayed(cacheSize, slots, []) == slots;
    hide Handled;
  }

  lemma PublishedDeltas(g: Gathered, o: Observation)
    requires !SnapshotDue(g, o) && IsBook(g.last.value) && IsBook(o.book)
    ensures var messages := Published(g, o);
      && |messages| <= 1 && (messages == [] <==> SameSides(g.last.value, o.book))
      && (messages != [] ==> IsDiff(messages[0], g.last.value, o.book))
  {
    hide IsSide, Minus;
    DiffIsMinimal(false, g.last.value.asks, o.book.asks);
    DiffIsMinimal(true, g.last.value.bids, o.book.bids);
  }

  lemma SidesAgree(held: Book, last: Book, next: Book)
    requires SameSides(last, next)
    ensures forall side, x :: Agrees(held, next, side, x) <==>
      Agrees(held, last, side, x) || Leaves(last, next, side, x)
  {
    forall side ensures SideOf(last, side) == SideOf(next, side) {
    }
  }

  lemma DeltasAgree(cacheSize: nat, slots: seq<Book>, g: Gathered, o: Observation)
    requires cacheSize > 0 && slots != [] && IsSorted(slots[0]) && !SnapshotDue(g, o)
    requires IsBook(g.last.value) && IsBook(o.book)
    ensures var r := Replayed(cacheSize, slots, Published(g, o));
      && r != [] && IsSorted(r[0])
      && forall side, x :: Agrees(r[0], o.book, side, x) <==>
        Agrees(slots[0], g.last.value, side, x) || Leaves(g.last.value, o.book, side, x)
  {
    hide IsBook, IsSorted, Agrees, Leaves, Published, PatchedBook, DiffOf, SameSides, Replayed;
    PublishedDeltas(g, o);
    var messages := Published(g, o);
    if messages == [] {
      OneReplayed(cacheSize, slots, Snapshot(o.book));
      SidesAgree(slots[0], g.last.value, o.book);
    } else {
      assert messages == [messages[0]];
      OneReplayed(cacheSize, slots, messages[0]);
      PatchedBookAgrees(slots[0], g.last.value, o.book, messages[0]);
    }
  }

  // ----- whole runs --------------------------------------------------------

  ghost predicate IsCorrectAt(first: Book, run: seq<Observation>, n: nat, held: Book, side: bool, x: Quote)
    requires 0 < n <= |run|
  {
    Agrees(held, run[|run| - 1].book, side, x) <==> IsRepairedAt(first, run, n, side, x)
  }

  /** The replica is right, at the end of a run, about what it was right about at the n-th observation and about what
      has left the book since. */
  ghost predicate Corrected(first: Book, run: seq<Observation>, n: nat, held: Book)
    requires 0 < n <= |run|
  {
    forall side, x :: IsCorrectAt(first, run, n, held, side, x)
  }

  ghost predicate Tracks(first: Book, run: seq<Observation>, n: nat, log: seq<Message>, r: seq<Book>, g: Gathered)
    requires 0 < n <= |run|
  {
    && r != [] && IsSorted(r[0]) && g.last == Some(run[|run| - 1].book)
    && if HasSnapshot(log) then InStep(r, g) else Corrected(first, run, n, r[0])
  }

  lemma LeftStep(run: seq<Observation>, n: nat, side: bool, x: Quote)
    requires 0 < n < |run|
    ensures HasLeft(run, n, side, x) <==>
      HasLeft(run[..|run| - 1], n, side, x) || LeavesAt(run, |run| - 1, side, x)
  {
    var before := run[..|run| - 1];
    forall i: nat | n <= i < |before| ensures LeavesAt(before, i, side, x) <==> LeavesAt(run, i, side, x) {
      assert before[i] == run[i] && before[i - 1] == run[i - 1];
    }
    hide LeavesAt;
    if HasLeft(before, n, side, x) {
      var i :| n <= i < |before| && LeavesAt(before, i, side, x);
      assert LeavesAt(run, i, side, x);
    }
    if HasLeft(run, n, side, x) {
      var i :| n <= i < |run| && LeavesAt(run, i, side, x);
      assert i < |before| ==> LeavesAt(before, i, side, x);
    }
  }

  lemma SnapshotStep(a: seq<Message>, b: seq<Message>)
    ensures HasSnapshot(a + b) <==> HasSnapshot(a) || HasSnapshot(b)
  {
    if HasSnapshot(a) {
      var k :| 0 <= k < |a| && a[k].Snapshot?;
      assert (a + b)[k] == a[k];
    }
    if HasSnapshot(b) {
      var k :| 0 <= k < |b| && b[k].Snapshot?;
      assert (a + b)[|a| + k] == b[k];
    }
  }

  lemma CorrectedStep(first: Book, run: seq<Observation>, n: nat, held: Book, next: Book)
    requires 0 < n < |run| && Corrected(first, run[..|run| - 1], n, held)
    requires var last, o := run[|run| - 2].book, run[|run| - 1].book;
      forall side, x :: Agrees(next, o, side, x) <==> Agrees(held, last, side, x) || Leaves(last, o, side, x)
    ensures Corrected(first, run, n, next)
  {
    hide Agrees, Leaves, HasLeft;
    var before := run[..|run| - 1];
    assert before[|before| - 1] == run[|run| - 2] && before[n - 1] == run[n - 1];
    forall side, x ensures IsCorrectAt(first, run, n, next, side, x) {
      assert IsCorrectAt(first, before, n, held, side, x);
      LeftStep(run, n, side, x);
    }
  }

  lemma TracksStep(cacheSize: nat, first: Book, run: seq<Observation>, n: nat, log: seq<Message>, r: seq<Book>,
      g: Gathered)
    requires cacheSize > 0 && 0 < n < |run| && Tracks(first, run[..|run| - 1], n, log, r, g)
    requires IsBook(run[|run| - 2].book) && IsBook(run[|run| - 1].book)
    ensures var o := run[|run| - 1];
      Tracks(first, run, n, log + Published(g, o), Replayed(cacheSize, r, Published(g, o)), Observed(g, o))
  {
    var before, o := run[..|run| - 1], run[|run| - 1];
    assert before[|before| - 1] == run[|run| - 2];
    hide Published, SnapshotDue, Observed, IsBook, IsSorted, HasSnapshot, Corrected, Replayed, SameSides;
    var more := Published(g, o);
    SnapshotStep(log, more);
    KindOfPublished(g, o);
    if HasSnapshot(log) || HasSnapshot(more) {
      StaysInStep(cacheSize, r, g, o);
    } else {
      DeltasAgree(cacheSize, r, g, o);
      hide InStep;
      CorrectedStep(first, run, n, r[0], Replayed(cacheSize, r, more)[0]);
    }
  }

  lemma StaysInStep(cacheSize: nat, slots: seq<Book>, g: Gathered, o: Observation)
    requires cacheSize > 0 && IsBook(o.book) && g.last.Some? && IsBook(g.last.value)
    requires InStep(slots, g) || SnapshotDue(g, o)
    ensures var r := Replayed(cacheSize, slots, Published(g, o));
      InStep(r, Observed(g, o)) && r != [] && IsSorted(r[0])
  {
    PublishedKeepsStep(cacheSize, slots, g, o);
    hide Published, SnapshotDue, IsBook, IsSorted, Replayed, SameSides;
    BookIsSorted(Replayed(cacheSize, slots, Published(g, o))[0], o.book);
  }

  lemma KindOfPublished(g: Gathered, o: Observation)
    requires g.last.Some?
    ensures HasSnapshot(Published(g, o)) <==> SnapshotDue(g, o)
    ensures Observed(g, o).last == Some(o.book)
  {
    assert SnapshotDue(g, o) ==> Published(g, o)[0].Snapshot?;
  }

  lemma NothingLeft(first: Book, run: seq<Observation>)
    requires run != []
    ensures Corrected(first, run, |run|, first)
  {
    hide Agrees, LeavesAt;
  }

  lemma {:induction false} RunTracks(cacheSize: nat, slots: seq<Book>, start: int, run: seq<Observation>, n: nat)
    requires cacheSize > 0 && slots != [] && IsSorted(slots[0]) && 0 < n <= |run| && AreBooks(run)
    ensures Tracks(slots[0], run, n, Since(start, run, n), Replayed(cacheSize, slots, Since(start, run, n)),
      Gathering(start, run).0)
  {
    LastGathered(start, run);
    if n < |run| {
      var before, o := run[..|run| - 1], run[|run| - 1];
      RunTracks(cacheSize, slots, start, before, n);
      var g, log := Gathering(start, before).0, Since(start, before, n);
      ReplayedConcat(cacheSize, slots, log, Published(g, o));
      hide Published, Observed, Tracks, Replayed, IsSorted;
      TracksStep(cacheSize, slots[0], run, n, log, Replayed(cacheSize, slots, log), g);
    } else {
      NothingLeft(slots[0], run);
      assert Replayed(cacheSize, slots, []) == slots;
    }
  }

  /** A replica in any state that reads on behind the n-th observation is in step if, and only if, a snapshot was
      published since, or every quote it had wrong then has left the observed book since. */
  lemma RejoinsExactly(cacheSize: nat, slots: seq<Book>, start: int, run: seq<Observation>, n: nat)
    requires cacheSize > 0 && slots != [] && IsSorted(slots[0]) && 0 < n <= |run| && AreBooks(run)
    ensures var log := Since(start, run, n);
      InStep(Replayed(cacheSize, slots, log), Gathering(start, run).0) <==>
        HasSnapshot(log) || IsRepaired(slots[0], run, n)
  {
    RunTracks(cacheSize, slots, start, run, n);
    assert IsBook(run[|run| - 1].book);
    hide *;
    StepIsRepair(slots[0], run, n, Since(start, run, n), Replayed(cacheSize, slots, Since(start, run, n)),
      Gathering(start, run).0);
  }

  lemma StepIsRepair(first: Book, run: seq<Observation>, n: nat, log: seq<Message>, r: seq<Book>, g: Gathered)
    requires 0 < n <= |run| && Tracks(first, run, n, log, r, g) && IsBook(run[|run| - 1].book)
    ensures InStep(r, g) <==> HasSnapshot(log) || IsRepaired(first, run, n)
  {
    hide IsSorted, IsBook, AllAgree, HasSnapshot, SameSides, Corrected, IsRepaired;
    SameBookAgrees(r[0], run[|run| - 1].book);
    if !HasSnapshot(log) {
      AllAgreeIsRepaired(first, run, n, r[0]);
    }
  }

  lemma AllAgreeIsRepaired(first: Book, run: seq<Observation>, n: nat, held: Book)
    requires 0 < n <= |run| && Corrected(first, run, n, held)
    ensures AllAgree(held, run[|run| - 1].book) <==> IsRepaired(first, run, n)
  {
    hide Agrees, IsRepairedAt;
    if AllAgree(held, run[|run| - 1].book) {
      forall side, x ensures IsRepairedAt(first, run, n, side, x) {
        assert IsCorrectAt(first, run, n, held, side, x);
      }
    }
    if IsRepaired(first, run, n) {
      var last := run[|run| - 1].book;
      forall side, x ensures Agrees(held, last, side, x) {
        assert IsCorrectAt(first, run, n, held, side, x);
      }
    }
  }

  // ----- joining at a position of the stream -------------------------------

  /** The id of a stream entry: milliseconds and a number within the millisecond. */
  datatype EntryId = EntryId(ms: nat, number: nat)

  predicate Behind(a: EntryId, b: EntryId) {
    a.ms > b.ms || (a.ms == b.ms && a.number > b.number)
  }

  ghost predicate InOrder(ids: seq<EntryId>) {
    forall i, j :: 0 <= i < j < |ids| ==> !Behind(ids[i], ids[j])
  }

  /** Where reading goes on behind a snapshot: at the entries behind the next millisecond's first id. */
  function StartOf(snapshot: EntryId): EntryId {
    EntryId(snapshot.ms + 1, 0)
  }

  /** The entries read from a position on. */
  function Heard(ids: seq<EntryId>, log: seq<Message>, from: EntryId): seq<Message>
    requires |ids| == |log|
  {
    if log == [] then []
    else
      Heard(ids[..|ids| - 1], log[..|log| - 1], from)
        + if Behind(ids[|ids| - 1], from) then [log[|log| - 1]] else []
  }

  /** createObservable: the snapshot is handled, then what is read from its position on. */
  function Joined(cacheSize: nat, ids: seq<EntryId>, log: seq<Message>, at: nat): seq<Book>
    requires |ids| == |log| && at < |log|
  {
    Replayed(cacheSize, [], [log[at]] + Heard(ids, log, StartOf(ids[at])))
  }

  /** The number of entries up to a position. */
  function Cursor(ids: seq<EntryId>, from: EntryId): (r: nat)
    ensures r <= |ids|
  {
    if ids == [] || !Behind(ids[|ids| - 1], from) then |ids| else Cursor(ids[..|ids| - 1], from)
  }

  lemma {:induction false} HeardIsRest(ids: seq<EntryId>, log: seq<Message>, from: EntryId)
    requires |ids| == |log| && InOrder(ids)
    ensures Heard(ids, log, from) == log[Cursor(ids, from)..]
  {
    if log != [] {
      var before, rest := ids[..|ids| - 1], log[..|log| - 1];
      HeardIsRest(before, rest, from);
      if Behind(ids[|ids| - 1], from) {
        assert rest[Cursor(before, from)..] + [log[|log| - 1]] == log[Cursor(before, from)..];
      } else {
        NothingHeard(before, rest, from);
      }
    }
  }

  lemma {:induction false} NothingHeard(ids: seq<EntryId>, log: seq<Message>, from: EntryId)
    requires |ids| == |log| && forall i :: 0 <= i < |ids| ==> !Behind(ids[i], from)
    ensures Heard(ids, log, from) == []
  {
    if log != [] {
      NothingHeard(ids[..|ids| - 1], log[..|log| - 1], from);
    }
  }

  lemma {:induction false} CursorIsBehind(ids: seq<EntryId>, from: EntryId, at: nat)
    requires at < |ids| && !Behind(ids[at], from)
    ensures at < Cursor(ids, from)
  {
    if Behind(ids[|ids| - 1], from) {
      CursorIsBehind(ids[..|ids| - 1], from, at);
    }
  }

  lemma {:induction false} CursorSplits(ids: seq<EntryId>, from: EntryId)
    requires InOrder(ids)
    ensures forall i :: 0 <= i < |ids| ==> (i >= Cursor(ids, from) <==> Behind(ids[i], from))
  {
    if ids != [] && Behind(ids[|ids| - 1], from) {
      CursorSplits(ids[..|ids| - 1], from);
    }
  }

  /** A replica that joins handles its snapshot, and then exactly the entries whose ids are behind number 0 of the next
      millisecond. */
  lemma JoinReads(cacheSize: nat, ids: seq<EntryId>, log: seq<Message>, at: nat)
    requires |ids| == |log| && at < |log| && InOrder(ids)
    ensures var c := Cursor(ids, StartOf(ids[at]));
      && at < c <= |ids| && Joined(cacheSize, ids, log, at) == Replayed(cacheSize, [], [log[at]] + log[c..])
      && forall i :: 0 <= i < |ids| ==> (i >= c <==>
        ids[i].ms > ids[at].ms + 1 || (ids[i].ms == ids[at].ms + 1 && ids[i].number > 0))
  {
    CursorIsBehind(ids, StartOf(ids[at]), at);
    HeardIsRest(ids, log, StartOf(ids[at]));
    CursorSplits(ids, StartOf(ids[at]));
    hide Cursor, Heard, Replayed;
  }

  /** How many observations it took to publish the first c messages. */
  function Taking(start: int, run: seq<Observation>, c: nat): (n: nat)
    ensures n <= |run|
  {
    if run == [] || |Gathering(start, run[..|run| - 1]).1| < c then |run| else Taking(start, run[..|run| - 1], c)
  }

  lemma {:induction false} TakingPublishes(start: int, run: seq<Observation>, c: nat)
    requires c <= |Gathering(start, run).1|
    ensures |Gathering(start, run[..Taking(start, run, c)]).1| == c
  {
    if run == [] || |Gathering(start, run[..|run| - 1]).1| < c {
      assert run[..|run|] == run;
    } else {
      TakingPublishes(start, run[..|run| - 1], c);
      assert run[..|run| - 1][..Taking(start, run, c)] == run[..Taking(start, run, c)];
    }
  }

  lemma {:induction false} SnapshotIsSorted(start: int, run: seq<Observation>, at: nat)
    requires AreBooks(run) && at < |Gathering(start, run).1| && Gathering(start, run).1[at].Snapshot?
    ensures IsSorted(Gathering(start, run).1[at].book)
  {
    hide Ordered, IsSide;
    if run != [] {
      var before, o := run[..|run| - 1], run[|run| - 1];
      if at < |Gathering(start, before).1| {
        SnapshotIsSorted(start, before, at);
      } else {
        assert IsBook(o.book);
        BookIsSorted(o.book.(meta := Stamped(o.book.meta, o.local)), o.book);
      }
    }
  }

  /** A replica that joins at a snapshot is in step if, and only if, a snapshot was published behind the position it
      reads on from, or every quote in which the snapshot differs from the book observed at that position has left the
      observed book since. */
  lemma JoinsExactly(cacheSize: nat, start: int, run: seq<Observation>, ids: seq<EntryId>, at: nat)
    requires cacheSize > 0 && AreBooks(run) && |ids| == |Gathering(start, run).1| && InOrder(ids)
    requires at < |ids| && Gathering(start, run).1[at].Snapshot?
    ensures var (g, log) := Gathering(start, run);
      var c := Cursor(ids, StartOf(ids[at]));
      var n := Taking(start, run, c);
      n > 0 && |Gathering(start, run[..n]).1| == c && (InStep(Joined(cacheSize, ids, log, at), g) <==>
        HasSnapshot(log[c..]) || IsRepaired(log[at].book, run, n))
  {
    var (g, log) := Gathering(start, run);
    var c := Cursor(ids, StartOf(ids[at]));
    var n := Taking(start, run, c);
    CursorIsBehind(ids, StartOf(ids[at]), at);
    HeardIsRest(ids, log, StartOf(ids[at]));
    TakingPublishes(start, run, c);
    LogIsSplit(start, run, n);
    SnapshotIsSorted(start, run, at);
    assert Gathering(start, run[..n]).1 != [];
    var slots := Replayed(cacheSize, [], [log[at]]);
    JoinedInTwo(cacheSize, log[at], log[c..]);
    hide *;
    RejoinsExactly(cacheSize, slots, start, run, n);
  }

  lemma JoinedInTwo(cacheSize: nat, m: Message, rest: seq<Message>)
    requires cacheSize > 0 && m.Snapshot?
    ensures Replayed(cacheSize, [], [m]) == [m.book]
    ensures Replayed(cacheSize, [], [m] + rest) == Replayed(cacheSize, [m.book], rest)
  {
    OneReplayed(cacheSize, [], m);
    ReplayedConcat(cacheSize, [], [m], rest);
  }

  /** A replica that joins at a snapshot without skipping anything is in step. */
  lemma JoinsBehindSnapshot(cacheSize: nat, start: int, run: seq<Observation>, ids: seq<EntryId>, at: nat)
    requires cacheSize > 0 && AreBooks(run) && |ids| == |Gathering(start, run).1| && InOrder(ids)
    requires at < |ids| && Gathering(start, run).1[at].Snapshot? && Cursor(ids, StartOf(ids[at])) == at + 1
    ensures InStep(Joined(cacheSize, ids, Gathering(start, run).1, at), Gathering(start, run).0)
  {
    var (g, log) := Gathering(start, run);
    HeardIsRest(ids, log, StartOf(ids[at]));
    assert [log[at]] + log[at + 1..] == log[at..];
    JoinAtSnapshot(cacheSize, start, run, [], at);
  }

  const SOLD := Book([], [], Meta(Some(2), None, None))
  const SELLING := [Observation(OLD_BOOK, 0, 0), Observation(SOLD, 0, 0)]

  lemma FirstIsPublished()
    ensures Gathering(0, SELLING[..1]) == (Gathered(Some(OLD_BOOK), 0), [Snapshot(OLD_BOOK)])
  {
    var start, first := Gathered(None, 0), SELLING[0];
    assert SELLING[..1] == [first] && [first][..0] == [];
    assert Gathering(0, []) == (start, []);
    assert Published(start, first) == [Snapshot(OLD_BOOK)];
    assert Gathering(0, [first]) == (Observed(start, first), [] + Published(start, first));
    assert [] + Published(start, first) == [Snapshot(OLD_BOOK)];
    assert Observed(start, first) == Gathered(Some(OLD_BOOK), 0);
  }

  lemma SaleIsPublished()
    ensures var (g, log) := Gathering(0, SELLING);
      |log| == 2 && log[0] == Snapshot(OLD_BOOK) && log[1].Deltas? && g.last == Some(SOLD)
  {
    FirstIsPublished();
    assert SELLING[|SELLING| - 1] == SELLING[1];
    PublishedDeltas(Gathered(Some(OLD_BOOK), 0), SELLING[1]);
    hide Published;
  }

  /** Deltas of the snapshot's own millisecond are skipped: the joining replica keeps an ask that is gone. */
  lemma JoinSkipsDeltas(cacheSize: nat)
    requires cacheSize > 0
    ensures var (g, log) := Gathering(0, SELLING);
      var ids := [EntryId(5, 0), EntryId(5, 1)];
      && |log| == 2 && log[0].Snapshot? && log[1].Deltas?
      && Joined(cacheSize, ids, log, 0) == [OLD_BOOK] && g.last == Some(SOLD)
      && !InStep(Joined(cacheSize, ids, log, 0), g)
  {
    SaleIsPublished();
    hide Gathering, Heard, Replayed;
    var log := Gathering(0, SELLING).1;
    var ids := [EntryId(5, 0), EntryId(5, 1)];
    NothingHeard(ids, log, StartOf(ids[0]));
    JoinedInTwo(cacheSize, log[0], []);
    assert [log[0]] + [] == [log[0]];
  }
}
