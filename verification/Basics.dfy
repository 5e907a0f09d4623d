/** Small things every other module uses. */
module Basics {

  datatype Option<+T> = None | Some(value: T)

  function Max(a: int, b: int): int {
    if a > b then a else b
  }

  function Min(a: int, b: int): int {
    if a < b then a else b
  }

  function Abs(n: int): (r: nat)
    ensures r == n || r == -n
  {
    if n < 0 then -n else n
  }

  function RealAbs(r: real): real {
    if r < 0.0 then -r else r
  }

  function RealMin(a: real, b: real): real {
    if a < b then a else b
  }

  lemma SubsetSize<T>(a: set<T>, b: set<T>)
    requires a <= b
    ensures |a| <= |b|
    ensures |a| == |b| ==> a == b
  {
    assert b == a + (b - a);
  }
}
