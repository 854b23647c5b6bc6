/** `bisect.bisect_right` over integer keys. */
module Bisect {
  /** The position the halving search ends at, on any list, sorted or not. */
  function Position(keys: seq<nat>, x: nat, low: nat, high: nat): (p: nat)
    requires low <= high <= |keys|
    ensures low <= p <= high
    decreases high - low
  {
    if low == high then low
    else
      var mid := (low + high) / 2;
      if x < keys[mid] then Position(keys, x, low, mid) else Position(keys, x, mid + 1, high)
  }

  method BisectRight(keys: seq<nat>, x: nat) returns (p: nat)
    ensures p == Position(keys, x, 0, |keys|)
  {
    var low, high := 0, |keys|;
    while low < high
      invariant 0 <= low <= high <= |keys|
      invariant Position(keys, x, low, high) == Position(keys, x, 0, |keys|)
      decreases high - low
    {
      var mid := (low + high) / 2;
      if x < keys[mid] {
        high := mid;
      } else {
        low := mid + 1;
      }
    }
    p := low;
  }

  ghost predicate Sorted(keys: seq<nat>) {
    forall i, j :: 0 <= i <= j < |keys| ==> keys[i] <= keys[j]
  }

  /** On a sorted list the position splits it into the keys up to `x` and those above. */
  lemma {:induction false} PositionSplits(keys: seq<nat>, x: nat, low: nat, high: nat)
    requires Sorted(keys) && low <= high <= |keys|
    requires forall i :: 0 <= i < low ==> keys[i] <= x
    requires forall i :: high <= i < |keys| ==> x < keys[i]
    ensures var p := Position(keys, x, low, high);
            && (forall i :: 0 <= i < p ==> keys[i] <= x)
            && (forall i :: p <= i < |keys| ==> x < keys[i])
    decreases high - low
  {
    if low < high {
      var mid := (low + high) / 2;
      if x < keys[mid] {
        PositionSplits(keys, x, low, mid);
      } else {
        PositionSplits(keys, x, mid + 1, high);
      }
    }
  }
}
