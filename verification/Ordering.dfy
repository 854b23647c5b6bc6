/** Sorted lists and ascending separators, by a key; what both B-trees of the store are ordered by. */
module Ordering {
  /** Ascending keys, all in [`low`, `high`). */
  ghost predicate SortedIn<T>(values: seq<T>, key: T -> nat, low: nat, high: nat) {
    && (forall i :: 0 <= i < |values| ==> low <= key(values[i]) < high)
    && (forall i, j :: 0 <= i < j < |values| ==> key(values[i]) <= key(values[j]))
  }

  lemma SortedInConcat<T>(a: seq<T>, b: seq<T>, key: T -> nat, low: nat, middle: nat, high: nat)
    requires low <= middle <= high && SortedIn(a, key, low, middle) && SortedIn(b, key, middle, high)
    ensures SortedIn(a + b, key, low, high)
  {
  }

  lemma SortedInWiden<T>(values: seq<T>, key: T -> nat, low: nat, lower: nat, high: nat)
    requires lower <= low && SortedIn(values, key, low, high)
    ensures SortedIn(values, key, lower, high)
  {
  }

  /** Where the interval of the first child ends. */
  function NextKey<T>(entries: seq<T>, key: T -> nat, high: nat): nat
    requires entries != []
  {
    if |entries| > 1 then key(entries[1]) else high
  }

  /** Ascending separators inside the page's own interval. */
  ghost predicate Separators<T>(entries: seq<T>, key: T -> nat, low: nat, high: nat) {
    && (forall i :: 0 <= i < |entries| ==> low <= key(entries[i]) <= high)
    && (forall i, j :: 0 <= i < j < |entries| ==> key(entries[i]) <= key(entries[j]))
  }

  lemma SeparatorsTail<T>(entries: seq<T>, key: T -> nat, low: nat, high: nat)
    requires entries != [] && Separators(entries, key, low, high)
    ensures low <= key(entries[0]) <= NextKey(entries, key, high) <= high
    ensures Separators(entries[1..], key, NextKey(entries, key, high), high)
  {
    assert forall i :: 0 <= i < |entries[1..]| ==> entries[1..][i] == entries[i + 1];
  }
}
