/** The padded float index of an order book side: sorted keys in front, Number.MAX_VALUE behind. */
module SortedIndex {

  const SIZE: nat := 1024

  /** Number.MAX_VALUE, the sentinel every real key stays below. */
  const MAX_VALUE: real := 179769313486231570814527423731704356798070567525844996598917476803157260780028538760589558632766878171540458953514382464234321326889464182768467546703537516986049910576551282076245490090389328944075868508455133942304583236903222948165808559332123348274797826204144723168738177180919299881250404026184124858368.0

  /** The index key of a price: bids (side true) are kept in descending order. */
  function KeyOf(side: bool, price: real): real {
    if side then -price else price
  }

  function InsertAt<T>(s: seq<T>, i: nat, x: T): (r: seq<T>)
    requires i <= |s|
    ensures |r| == |s| + 1
  {
    s[..i] + [x] + s[i..]
  }

  function RemoveAt<T>(s: seq<T>, i: nat): (r: seq<T>)
    requires i < |s|
    ensures |r| == |s| - 1
  {
    s[..i] + s[i + 1..]
  }

  lemma InsertedAt<T>(s: seq<T>, i: nat, x: T)
    requires i <= |s|
    ensures var r := InsertAt(s, i, x);
      r[i] == x && (forall j :: 0 <= j < i ==> r[j] == s[j]) && forall j :: i < j < |r| ==> r[j] == s[j - 1]
  {
  }

  lemma RemovedAt<T>(s: seq<T>, i: nat)
    requires i < |s|
    ensures var r := RemoveAt(s, i);
      (forall j :: 0 <= j < i ==> r[j] == s[j]) && forall j :: i <= j < |r| ==> r[j] == s[j + 1]
  {
  }

  /** Array.prototype.copyWithin */
  function CopiedWithin<T>(s: seq<T>, target: nat, start: nat, end: nat): (r: seq<T>)
    requires target <= |s| && start <= end <= |s|
    ensures |r| == |s|
  {
    var count := if end - start < |s| - target then end - start else |s| - target;
    s[..target] + s[start..start + count] + s[target + count..]
  }

  lemma ShiftRight<T>(s: seq<T>, i: nat, x: T)
    requires i < |s|
    ensures CopiedWithin(s, i + 1, i, |s|)[i := x] == InsertAt(s, i, x)[..|s|]
  {
  }

  lemma ShiftLeft<T>(s: seq<T>, i: nat)
    requires i < |s|
    ensures CopiedWithin(s, i, i + 1, |s|) == RemoveAt(s, i) + [s[|s| - 1]]
  {
  }

  method CopyWithin(a: array<real>, target: nat, start: nat, end: nat)
    requires target <= a.Length && start <= end <= a.Length
    modifies a
    ensures a[..] == CopiedWithin(old(a[..]), target, start, end)
  {
    var count := if end - start < a.Length - target then end - start else a.Length - target;
    ghost var s := a[..];
    forall k | target <= k < target + count {
      a[k] := a[start + (k - target)];
    }
    CopiedWithinIs(s, target, start, end, a[..]);
  }

  lemma CopiedWithinIs<T>(s: seq<T>, target: nat, start: nat, end: nat, r: seq<T>)
    requires target <= |s| && start <= end <= |s| && |r| == |s|
    requires var count := if end - start < |s| - target then end - start else |s| - target;
      && (forall k :: 0 <= k < target ==> r[k] == s[k])
      && (forall k :: target <= k < target + count ==> r[k] == s[start + (k - target)])
      && (forall k :: target + count <= k < |s| ==> r[k] == s[k])
    ensures r == CopiedWithin(s, target, start, end)
  {
    var count := if end - start < |s| - target then end - start else |s| - target;
    assert r[..target] == s[..target];
    assert r[target..target + count] == s[start..start + count];
    assert r[target + count..] == s[target + count..];
    assert r == r[..target] + r[target..target + count] + r[target + count..];
  }

  // ----- the padded index --------------------------------------------------

  ghost function Sentinels(n: nat): (s: seq<real>)
    ensures |s| == n && forall i :: 0 <= i < n ==> s[i] == MAX_VALUE
  {
    seq(n, _ => MAX_VALUE)
  }

  /** Sorted (repetitions allowed) and below the sentinel. */
  ghost predicate SortedKeys(keys: seq<real>) {
    && (forall i, j :: 0 <= i < j < |keys| ==> keys[i] <= keys[j])
    && (forall i :: 0 <= i < |keys| ==> keys[i] < MAX_VALUE)
  }

  /** The keys, then nothing but sentinels, and at least one of them. */
  ghost predicate IsIndex(a: seq<real>, keys: seq<real>) {
    |keys| < |a| && a == keys + Sentinels(|a| - |keys|)
  }

  /** Where a key belongs: everything in front is smaller, everything from there on is not. */
  ghost predicate Splits(a: seq<real>, x: real, low: int) {
    && 0 <= low <= |a|
    && (forall i :: 0 <= i < low ==> a[i] < x)
    && (forall i :: low <= i < |a| ==> a[i] >= x)
  }

  method BisectLeft(a: array<real>, x: real) returns (low: int)
    requires forall i, j :: 0 <= i < j < a.Length ==> a[i] <= a[j]
    ensures Splits(a[..], x, low)
  {
    low := 0;
    var high := a.Length - 1;
    while low <= high
      invariant 0 <= low <= high + 1 <= a.Length
      invariant forall i :: 0 <= i < low ==> a[i] < x
      invariant forall i :: high < i < a.Length ==> a[i] >= x
    {
      var mid := (low + high) / 2;
      if a[mid] - x < 0.0 {
        low := mid + 1;
      } else {
        high := mid - 1;
      }
    }
  }

  /** Finds a key in the index; the position is one of the keys, or just behind them. */
  method Locate(index: array<real>, ghost keys: seq<real>, x: real) returns (low: nat)
    requires IsIndex(index[..], keys) && SortedKeys(keys) && x < MAX_VALUE
    ensures low <= |keys| < index.Length && Splits(keys, x, low)
    ensures index[low] == x <==> low < |keys| && keys[low] == x
  {
    IndexIsSorted(index[..], keys);
    var k := BisectLeft(index, x);
    SplitKeys(index[..], keys, x, k);
    low := k;
  }

  lemma IndexIsSorted(a: seq<real>, keys: seq<real>)
    requires IsIndex(a, keys) && SortedKeys(keys)
    ensures forall i, j :: 0 <= i < j < |a| ==> a[i] <= a[j]
  {
  }

  lemma SplitKeys(a: seq<real>, keys: seq<real>, x: real, low: int)
    requires IsIndex(a, keys) && x < MAX_VALUE && Splits(a, x, low)
    ensures low <= |keys| && Splits(keys, x, low)
    ensures a[low] == x <==> low < |keys| && keys[low] == x
  {
    assert a[|keys|] == MAX_VALUE;
    assert forall i :: 0 <= i < |keys| ==> a[i] == keys[i];
  }

  /** Opens a gap in the index and puts the key there. */
  method InsertKey(index: array<real>, ghost keys: seq<real>, at: nat, key: real)
    requires IsIndex(index[..], keys) && at <= |keys|
    modifies index
    ensures index[..] == InsertAt(keys, at, key) + Sentinels(index.Length - |keys| - 1)
  {
    ghost var before := index[..];
    CopyWithin(index, at + 1, at, index.Length);
    index[at] := key;
    ShiftRight(before, at, key);
    IndexInserted(before, keys, at, key);
  }

  lemma IndexInserted(a: seq<real>, keys: seq<real>, at: nat, key: real)
    requires IsIndex(a, keys) && at <= |keys|
    ensures InsertAt(a, at, key)[..|a|] == InsertAt(keys, at, key) + Sentinels(|a| - |keys| - 1)
  {
  }

  /** Closes the gap a removed key leaves; `length` is the number of keys before. */
  method RemoveKey(index: array<real>, ghost keys: seq<real>, at: nat, length: nat)
    requires IsIndex(index[..], keys) && at < |keys| == length
    modifies index
    ensures IsIndex(index[..], RemoveAt(keys, at))
  {
    ghost var before := index[..];
    CopyWithin(index, at, at + 1, index.Length);
    index[length - 1] := MAX_VALUE;
    ShiftLeft(before, at);
    IndexRemoved(before, keys, at);
  }

  lemma IndexRemoved(a: seq<real>, keys: seq<real>, at: nat)
    requires IsIndex(a, keys) && at < |keys|
    ensures IsIndex((RemoveAt(a, at) + [a[|a| - 1]])[|keys| - 1 := MAX_VALUE], RemoveAt(keys, at))
  {
  }

  /** Reallocates an index that has no sentinel left. */
  method Grow(index: array<real>, ghost keys: seq<real>, length: nat) returns (r: array<real>)
    requires 0 < length == |keys| <= index.Length
    requires index[..] == keys + Sentinels(index.Length - length)
    ensures IsIndex(r[..], keys)
    ensures r == index || fresh(r)
    ensures r == index ==> index[..] == old(index[..])
  {
    r := index;
    if length > index.Length - 1 {
      r := new real[length * 2](i requires 0 <= i < length * 2 reads index =>
        if i < index.Length then index[i] else MAX_VALUE);
      assert r[..index.Length] == index[..];
      assert r[..] == r[..index.Length] + Sentinels(length * 2 - index.Length);
      assert r[..] == keys + Sentinels(length * 2 - length);
    }
  }

  // ----- sortedness --------------------------------------------------------

  ghost predicate StrictlySorted(keys: seq<real>) {
    && (forall i, j :: 0 <= i < j < |keys| ==> keys[i] < keys[j])
    && (forall i :: 0 <= i < |keys| ==> keys[i] < MAX_VALUE)
  }

  lemma InsertKeepsSorted(keys: seq<real>, at: nat, key: real)
    requires SortedKeys(keys) && key < MAX_VALUE && Splits(keys, key, at)
    ensures SortedKeys(InsertAt(keys, at, key))
    ensures StrictlySorted(keys) && (at < |keys| ==> keys[at] != key) ==> StrictlySorted(InsertAt(keys, at, key))
  {
  }

  lemma RemoveKeepsSorted(keys: seq<real>, at: nat)
    requires SortedKeys(keys) && at < |keys|
    ensures SortedKeys(RemoveAt(keys, at))
    ensures StrictlySorted(keys) ==> StrictlySorted(RemoveAt(keys, at))
  {
  }

  lemma KeyIsAbsent(keys: seq<real>, key: real, at: nat)
    requires StrictlySorted(keys) && at <= |keys| && Splits(keys, key, at) && (at < |keys| ==> keys[at] != key)
    ensures forall j :: 0 <= j < |keys| ==> keys[j] != key
  {
    forall j | 0 <= j < |keys| ensures keys[j] != key {
      if at < j {
        assert keys[at] < keys[j];
      }
    }
  }

  lemma SplitSequence<T>(s: seq<T>, i: nat)
    requires i <= |s|
    ensures s == s[..i] + s[i..]
  {
  }
}
