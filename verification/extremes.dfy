/** Index selection as numpy's `argmin` and `argmax` do it on a one-dimensional
    array: the position of the smallest (largest) key, and of those the FIRST
    one when the extreme value occurs more than once. */
module Extremes {

  /** The larger of two reals, Python's two-argument `max`. */
  function Max(a: real, b: real): real {
    if a < b then b else a
  }

  /** The smaller of two reals, Python's two-argument `min`. */
  function Min(a: real, b: real): real {
    if a < b then a else b
  }

  /** `k` is the first index at which `keys` attains its minimum. */
  predicate IsFirstMin(keys: seq<real>, k: int) {
    && 0 <= k < |keys|
    && (forall j :: 0 <= j < |keys| ==> keys[k] <= keys[j])
    && (forall j :: 0 <= j < k ==> keys[k] < keys[j])
  }

  /** `k` is the first index at which `keys` attains its maximum. */
  predicate IsFirstMax(keys: seq<real>, k: int) {
    && 0 <= k < |keys|
    && (forall j :: 0 <= j < |keys| ==> keys[j] <= keys[k])
    && (forall j :: 0 <= j < k ==> keys[j] < keys[k])
  }

  /** The left-to-right scan of `argmin`: a later key replaces the current
      candidate only when it is strictly smaller. */
  function ArgMin(keys: seq<real>): (k: nat)
    requires |keys| > 0
    ensures IsFirstMin(keys, k)
    decreases |keys|
  {
    if |keys| == 1 then 0
    else
      var k := ArgMin(keys[..|keys| - 1]);
      if keys[|keys| - 1] < keys[k] then |keys| - 1 else k
  }

  /** The left-to-right scan of `argmax`: a later key replaces the current
      candidate only when it is strictly larger. */
  function ArgMax(keys: seq<real>): (k: nat)
    requires |keys| > 0
    ensures IsFirstMax(keys, k)
    decreases |keys|
  {
    if |keys| == 1 then 0
    else
      var k := ArgMax(keys[..|keys| - 1]);
      if keys[k] < keys[|keys| - 1] then |keys| - 1 else k
  }

  /** There is exactly one first minimiser, so `ArgMin` is characterised by it. */
  lemma ArgMinCharacterised(keys: seq<real>, k: int)
    requires |keys| > 0
    ensures IsFirstMin(keys, k) <==> k == ArgMin(keys)
  {
  }

  /** There is exactly one first maximiser, so `ArgMax` is characterised by it. */
  lemma ArgMaxCharacterised(keys: seq<real>, k: int)
    requires |keys| > 0
    ensures IsFirstMax(keys, k) <==> k == ArgMax(keys)
  {
  }
}
