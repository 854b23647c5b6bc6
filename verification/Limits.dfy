/** The ceilings of a store and the cycle guard of its walks. A ceiling is the largest value that passes. */
module Limits {
  datatype Limits = Limits(
    maxBtreeDepth: nat,
    maxXblockDepth: nat,
    maxSubnodeDepth: nat,
    maxHeapTreeDepth: nat,
    maxAllocation: nat,
    maxFileSize: nat,
    maxItems: nat,
    maxHeapItems: nat,
    maxMvItems: nat)
  {
    predicate Valid() {
      && 0 < maxBtreeDepth && 0 < maxXblockDepth && 0 < maxSubnodeDepth && 0 < maxHeapTreeDepth
      && 0 < maxAllocation && 0 < maxFileSize && 0 < maxItems && 0 < maxHeapItems && 0 < maxMvItems
    }
  }

  /** Remembers the keys of one walk; refuses a key it has seen, and any key once it is full. */
  class VisitedSet {
    var seen: set<nat>
    const ceiling: nat

    constructor (ceiling: nat)
      ensures seen == {} && this.ceiling == ceiling
    {
      seen := {};
      this.ceiling := ceiling;
    }

    method Add(key: nat) returns (ok: bool)
      modifies this
      ensures ok <==> key !in old(seen) && |old(seen)| < ceiling
      ensures seen == if ok then old(seen) + {key} else old(seen)
    {
      ok := key !in seen && |seen| < ceiling;
      if ok {
        seen := seen + {key};
      }
    }
  }
}
