/** What the gatherer publishes over a run, and when, told from its log, the observed books and the clock readings. */
module Publication {
  import opened Basics
  import opened SortedIndex
  import opened Replication
  import opened Rejoining

  /** What the i-th observation adds to the log. */
  function Sent(start: int, run: seq<Observation>, i: nat): seq<Message>
    requires i < |run|
  {
    var before, behind := Gathering(start, run[..i]).1, Gathering(start, run[..i + 1]).1;
    if |before| <= |behind| then behind[|before|..] else []
  }

  predicate SendsSnapshot(start: int, run: seq<Observation>, i: nat)
    requires i < |run|
  {
    exists k :: 0 <= k < |Sent(start, run, i)| && Sent(start, run, i)[k].Snapshot?
  }

  lemma SentIsPublished(start: int, run: seq<Observation>, i: nat)
    requires i < |run|
    ensures Sent(start, run, i) == Published(Gathering(start, run[..i]).0, run[i])
    ensures SendsSnapshot(start, run, i) <==> SnapshotDue(Gathering(start, run[..i]).0, run[i])
    ensures Gathering(start, run[..i + 1]).1 == Gathering(start, run[..i]).1 + Sent(start, run, i)
    ensures Gathering(start, run[..i + 1]).0 == Observed(Gathering(start, run[..i]).0, run[i])
  {
    assert run[..i + 1][..i] == run[..i];
    var g := Gathering(start, run[..i]).0;
    assert SnapshotDue(g, run[i]) ==> Published(g, run[i])[0].Snapshot?;
    hide Gathering, SnapshotDue;
  }

  /** The j-th observation sent the latest snapshot in front of the n-th. */
  ghost predicate IsLatest(start: int, run: seq<Observation>, j: nat, n: nat)
    requires n <= |run|
  {
    j < n && SendsSnapshot(start, run, j) && forall k :: j < k < n ==> !SendsSnapshot(start, run, k)
  }

  lemma LatestStep(start: int, run: seq<Observation>, n: nat)
    requires n < |run|
    ensures SendsSnapshot(start, run, n) ==> IsLatest(start, run, n, n + 1)
    ensures !SendsSnapshot(start, run, n) ==>
      forall j: nat :: IsLatest(start, run, j, n) ==> IsLatest(start, run, j, n + 1)
  {
    hide SendsSnapshot;
  }

  lemma {:induction false} TimeOfLatest(start: int, run: seq<Observation>, n: nat) returns (j: nat)
    requires n < |run|
    ensures IsLatest(start, run, j, n + 1) && Gathering(start, run[..n + 1]).0.time == run[j].now
    ensures Gathering(start, run[..n + 1]).0.last.Some?
  {
    hide Gathering, SendsSnapshot, IsLatest, Sent, Published;
    SentIsPublished(start, run, n);
    LatestStep(start, run, n);
    NothingObserved(start);
    assert run[..0] == [];
    if SendsSnapshot(start, run, n) {
      j := n;
    } else {
      j := TimeOfLatest(start, run, n - 1);
    }
  }

  lemma NothingObserved(start: int)
    ensures Gathering(start, []).0 == Gathered(None, start)
  {
  }

  lemma LatestIsUnique(start: int, run: seq<Observation>, i: nat, j: nat, n: nat)
    requires n <= |run| && IsLatest(start, run, i, n) && IsLatest(start, run, j, n)
    ensures i == j
  {
    hide SendsSnapshot;
  }

  /** Snapshots are sent for the first book, and for every book observed more than a minute after the latest one for which
      a snapshot was sent; for no other. */
  lemma SnapshotTimes(start: int, run: seq<Observation>, i: nat)
    requires i < |run|
    ensures SendsSnapshot(start, run, i) <==>
      i == 0 || exists j: nat :: IsLatest(start, run, j, i) && run[i].now - run[j].now > 60000
  {
    SentIsPublished(start, run, i);
    assert i == 0 ==> Gathering(start, run[..i]).0.last.None?;
    hide SendsSnapshot, Gathering, IsLatest;
    if i > 0 {
      var j := TimeOfLatest(start, run, i - 1);
      forall k: nat | IsLatest(start, run, k, i) ensures k == j {
        LatestIsUnique(start, run, k, j, i);
      }
    }
  }

  // ----- what is sent ------------------------------------------------------

  /** What the next book has and the last one has not, and the other way round. */
  ghost predicate IsDiffOf(d: Diff, last: seq<Quote>, next: seq<Quote>) {
    && (forall x :: x in d.add <==> x in next && x !in last)
    && (forall x :: x in d.remove <==> x in last && x !in next)
  }

  function MetaOf(m: Message): Meta {
    match m
    case Snapshot(book) => book.meta
    case Deltas(_, _, meta) => meta
  }

  /** The book's own timestamp, or else the local time, and the book's nonce and date. */
  function MetaFor(o: Observation): Meta {
    Meta(if o.book.meta.timestamp.Some? then o.book.meta.timestamp else Some(o.local),
         o.book.meta.nonce, o.book.meta.datetime)
  }

  ghost predicate IsSnapshotOf(m: Message, o: Observation) {
    m.Snapshot? && SameSides(m.book, o.book) && MetaOf(m) == MetaFor(o)
  }

  ghost predicate IsDeltasOf(m: Message, last: Book, o: Observation) {
    && m.Deltas? && MetaOf(m) == MetaFor(o)
    && IsDiffOf(m.asks, last.asks, o.book.asks) && IsDiffOf(m.bids, last.bids, o.book.bids)
  }

  lemma SnapshotIs(g: Gathered, o: Observation)
    requires SnapshotDue(g, o)
    ensures |Published(g, o)| == 1 && IsSnapshotOf(Published(g, o)[0], o)
  {
  }

  lemma DeltasAre(g: Gathered, o: Observation)
    requires !SnapshotDue(g, o) && IsBook(g.last.value) && IsBook(o.book)
    ensures |Published(g, o)| <= 1 && (Published(g, o) == [] <==> SameSides(g.last.value, o.book))
    ensures forall m :: m in Published(g, o) ==> IsDeltasOf(m, g.last.value, o)
  {
    PublishedDeltas(g, o);
    hide IsBook, Minus, SameSides;
  }

  /** Every message carries the book's own timestamp, or else the local time, and the book's nonce and date; a snapshot
      has the book's sides, deltas the difference from the book observed before it; and nothing is sent exactly when no
      snapshot is and the sides are the same. */
  lemma SentIs(start: int, run: seq<Observation>, i: nat)
    requires i < |run| && AreBooks(run)
    ensures var o, sent := run[i], Sent(start, run, i);
      && |sent| <= 1
      && (SendsSnapshot(start, run, i) ==> |sent| == 1 && IsSnapshotOf(sent[0], o))
      && (!SendsSnapshot(start, run, i) ==>
        && i > 0
        && (sent == [] <==> SameSides(run[i - 1].book, o.book))
        && forall m :: m in sent ==> IsDeltasOf(m, run[i - 1].book, o))
  {
    var o, g := run[i], Gathering(start, run[..i]).0;
    SentIsPublished(start, run, i);
    LastGathered(start, run[..i]);
    assert i > 0 ==> run[..i][i - 1] == run[i - 1] && IsBook(run[i - 1].book);
    assert IsBook(o.book);
    hide Gathering, SendsSnapshot, IsBook, Sent, Published, IsSnapshotOf, IsDeltasOf, SameSides;
    if SendsSnapshot(start, run, i) {
      SnapshotIs(g, o);
    } else {
      DeltasAre(g, o);
    }
  }

  /** The newest version at a replica carries the metadata of the last message. */
  lemma NewestMeta(cacheSize: nat, slots: seq<Book>, log: seq<Message>)
    requires cacheSize > 0 && log != []
    ensures var r := Replayed(cacheSize, slots, log);
      r != [] ==> r[0].meta == MetaOf(log[|log| - 1])
  {
    var before := Replayed(cacheSize, slots, log[..|log| - 1]);
    HandledVersions(cacheSize, before, log[|log| - 1]);
    hide Handled, Patched;
  }
}
