/**
 The two walks of a BTree-on-heap against plain recursion and against each other: level by level is left to
 right, and on ordered trees the one-path lookup answers what the listing lists.
 */
module HeapOrder {
  import opened Wire
  import opened Limits
  import opened Traversal
  import opened Heap
  import opened HeapTree
  import opened Ordering

  // --- left to right ------------------------------------------------------------------------

  function Below(t: Bth, hid: nat): seq<nat>
    requires t.WellFormed()
  {
    if IndexPage(t, hid).Ok? then ChildrenOf(IndexPage(t, hid).value) else []
  }

  function BelowAll(t: Bth, hids: seq<nat>): seq<nat>
    requires t.WellFormed()
  {
    if hids == [] then [] else Below(t, hids[0]) + BelowAll(t, hids[1..])
  }

  /** The records under a page with `k` index levels left, left to right. */
  function Flatten(t: Bth, hid: nat, k: nat): seq<Record>
    requires t.WellFormed()
    decreases k, 0
  {
    if k == 0 then (if LeafPage(t, hid).Ok? then LeafPage(t, hid).value else [])
    else FlattenAll(t, Below(t, hid), k - 1)
  }

  function FlattenAll(t: Bth, hids: seq<nat>, k: nat): seq<Record>
    requires t.WellFormed()
    decreases k, 1 + |hids|
  {
    if hids == [] then [] else Flatten(t, hids[0], k) + FlattenAll(t, hids[1..], k)
  }

  lemma {:induction false} FlattenConcat(t: Bth, a: seq<nat>, b: seq<nat>, k: nat)
    requires t.WellFormed()
    ensures FlattenAll(t, a + b, k) == FlattenAll(t, a, k) + FlattenAll(t, b, k)
    decreases |a|
  {
    hide Flatten, FlattenAll;
    if a == [] {
      NothingFlat(t, k);
      assert a + b == b;
    } else {
      FlattenHead(t, a + b, k);
      FlattenHead(t, a, k);
      assert (a + b)[0] == a[0] && (a + b)[1..] == a[1..] + b;
      FlattenConcat(t, a[1..], b, k);
      ConcatAssociates(Flatten(t, a[0], k), FlattenAll(t, a[1..], k), FlattenAll(t, b, k));
    }
  }

  /** One level down, the pages hold the same records in the same order. */
  lemma {:induction false} FlattenLevel(t: Bth, hids: seq<nat>, k: nat)
    requires t.WellFormed() && k > 0
    ensures FlattenAll(t, hids, k) == FlattenAll(t, BelowAll(t, hids), k - 1)
    decreases |hids|
  {
    hide Flatten, FlattenAll, Below;
    if hids == [] {
      NothingFlat(t, k);
      NothingFlat(t, k - 1);
    } else {
      FlattenHead(t, hids, k);
      FlattenDown(t, hids[0], k);
      FlattenLevel(t, hids[1..], k);
      FlattenConcat(t, Below(t, hids[0]), BelowAll(t, hids[1..]), k - 1);
    }
  }

  lemma NothingFlat(t: Bth, k: nat)
    requires t.WellFormed()
    ensures FlattenAll(t, [], k) == []
  {
  }

  lemma FlattenHead(t: Bth, hids: seq<nat>, k: nat)
    requires t.WellFormed() && hids != []
    ensures FlattenAll(t, hids, k) == Flatten(t, hids[0], k) + FlattenAll(t, hids[1..], k)
  {
  }

  lemma FlattenDown(t: Bth, hid: nat, k: nat)
    requires t.WellFormed() && k > 0
    ensures Flatten(t, hid, k) == FlattenAll(t, Below(t, hid), k - 1)
  {
  }

  // --- when the level-by-level walk gets through ----------------------------------------------

  /** The pages of all levels, top level first. */
  function Visits(t: Bth, hids: seq<nat>, k: nat): seq<nat>
    requires t.WellFormed()
    decreases k
  {
    if k == 0 then hids else hids + Visits(t, BelowAll(t, hids), k - 1)
  }

  /** Every page below reads as what its level makes it. */
  ghost predicate Readable(t: Bth, hids: seq<nat>, k: nat)
    requires t.WellFormed()
    decreases k
  {
    if k == 0 then forall hid :: hid in hids ==> LeafPage(t, hid).Ok?
    else (forall hid :: hid in hids ==> IndexPage(t, hid).Ok?) && Readable(t, BelowAll(t, hids), k - 1)
  }

  function Elements(hids: seq<nat>): set<nat> {
    set hid | hid in hids
  }

  lemma {:induction false} AdmitsConcat(ceiling: nat, seen: set<nat>, a: seq<nat>, b: seq<nat>)
    ensures Admits(ceiling, seen, a + b)
            <==> Admits(ceiling, seen, a) && Admits(ceiling, seen + Elements(a), b)
    decreases |a|
  {
    if a == [] {
      assert a + b == b;
      assert seen + Elements(a) == seen;
    } else {
      hide Admits;
      AdmitsHead(ceiling, seen, a + b);
      AdmitsHead(ceiling, seen, a);
      assert (a + b)[1..] == a[1..] + b;
      AdmitsConcat(ceiling, seen + {a[0]}, a[1..], b);
      assert seen + {a[0]} + Elements(a[1..]) == seen + Elements(a) by {
        assert a == [a[0]] + a[1..];
      }
    }
  }

  lemma {:induction false} NextLevelIff(t: Bth, pages: seq<nat>, seen: set<nat>)
    requires t.WellFormed()
    ensures var next := NextLevel(t, pages, seen);
            && (next.0.Ok? <==> (forall hid :: hid in pages ==> IndexPage(t, hid).Ok?)
                                && Admits(t.limits.maxItems, seen, pages))
            && (next.0.Ok? ==> next.0.value == BelowAll(t, pages) && next.1 == seen + Elements(pages))
    decreases |pages|
  {
    if pages == [] {
      assert seen + Elements(pages) == seen;
    } else {
      hide Admits, IndexPage;
      AdmitsHead(t.limits.maxItems, seen, pages);
      assert pages == [pages[0]] + pages[1..];
      if !Full(t, pages[0], seen) {
        NextLevelIff(t, pages[1..], seen + {pages[0]});
        assert seen + {pages[0]} + Elements(pages[1..]) == seen + Elements(pages);
      }
    }
  }

  lemma FlattenLeaf(t: Bth, hid: nat)
    requires t.WellFormed()
    ensures Flatten(t, hid, 0) == if LeafPage(t, hid).Ok? then LeafPage(t, hid).value else []
  {
  }

  lemma {:induction false} LeavesIff(t: Bth, pages: seq<nat>, seen: set<nat>, count: nat)
    requires t.WellFormed() && count <= t.limits.maxItems
    ensures var o := Leaves(t, pages, seen, count);
            && (o.error.None? <==> (forall hid :: hid in pages ==> LeafPage(t, hid).Ok?)
                                   && Admits(t.limits.maxItems, seen, pages)
                                   && count + |FlattenAll(t, pages, 0)| <= t.limits.maxItems)
            && (o.error.None? ==> o.emitted == FlattenAll(t, pages, 0))
            && count + |o.emitted| <= t.limits.maxItems
    decreases |pages|
  {
    hide Admits, LeafPage, FlattenAll, Flatten, Leaves, Full;
    if pages == [] {
      NoLeaves(t, seen, count);
    } else {
      AdmitsHead(t.limits.maxItems, seen, pages);
      FlattenHead(t, pages, 0);
      FlattenLeaf(t, pages[0]);
      LeavesHead(t, pages, seen, count);
      assert pages == [pages[0]] + pages[1..];
      if !Full(t, pages[0], seen) && LeafPage(t, pages[0]).Ok? {
        var records := LeafPage(t, pages[0]).value;
        if count + |records| <= t.limits.maxItems {
          LeavesIff(t, pages[1..], seen + {pages[0]}, count + |records|);
        }
      }
    }
  }

  lemma NoLeaves(t: Bth, seen: set<nat>, count: nat)
    requires t.WellFormed()
    ensures Leaves(t, [], seen, count) == Outcome([], None) && FlattenAll(t, [], 0) == []
    ensures Admits(t.limits.maxItems, seen, [])
  {
  }

  /** The walk from any level: down to the leaves, then their records. */
  function WalkFrom(t: Bth, pages: seq<nat>, k: nat, seen: set<nat>): Outcome<Record>
    requires t.WellFormed()
  {
    var (leaves, entered) := Descend(t, pages, k, seen);
    if leaves.Err? then Outcome([], Some(leaves.error)) else Leaves(t, leaves.value, entered, 0)
  }

  lemma {:induction false} WalkFromIff(t: Bth, pages: seq<nat>, k: nat, seen: set<nat>)
    requires t.WellFormed()
    ensures var o := WalkFrom(t, pages, k, seen);
            && (o.error.None? <==> Readable(t, pages, k) && Admits(t.limits.maxItems, seen, Visits(t, pages, k))
                                   && |FlattenAll(t, pages, k)| <= t.limits.maxItems)
            && (o.error.None? ==> o.emitted == FlattenAll(t, pages, k))
    decreases k
  {
    hide Leaves, FlattenAll, BelowAll, NextLevel, Admits, Descend, IndexPage, LeafPage;
    if k == 0 {
      WalkHere(t, pages, seen);
      LeavesIff(t, pages, seen, 0);
    } else {
      var below := BelowAll(t, pages);
      WalkDown(t, pages, k, seen);
      hide WalkFrom;
      NextLevelIff(t, pages, seen);
      AdmitsConcat(t.limits.maxItems, seen, pages, Visits(t, below, k - 1));
      FlattenLevel(t, pages, k);
      VisitsWithin(t, below, k - 1, seen + Elements(pages));
      if NextLevel(t, pages, seen).0.Ok? && |below| <= t.limits.maxItems {
        WalkFromIff(t, below, k - 1, seen + Elements(pages));
      }
    }
  }

  lemma WalkHere(t: Bth, pages: seq<nat>, seen: set<nat>)
    requires t.WellFormed()
    ensures WalkFrom(t, pages, 0, seen) == Leaves(t, pages, seen, 0)
  {
    hide Leaves;
  }

  lemma WalkDown(t: Bth, pages: seq<nat>, k: nat, seen: set<nat>)
    requires t.WellFormed() && k > 0
    ensures var next := NextLevel(t, pages, seen);
            if next.0.Err? then WalkFrom(t, pages, k, seen).error == Some(next.0.error)
            else if |next.0.value| > t.limits.maxItems then WalkFrom(t, pages, k, seen).error == Some(Limit)
            else WalkFrom(t, pages, k, seen) == WalkFrom(t, next.0.value, k - 1, next.1)
  {
    hide NextLevel, Leaves;
  }

  lemma VisitsWithin(t: Bth, pages: seq<nat>, k: nat, seen: set<nat>)
    requires t.WellFormed()
    ensures Admits(t.limits.maxItems, seen, Visits(t, pages, k)) ==> |pages| <= t.limits.maxItems
  {
  }

  /**
   On every heap, whatever its index records name: the walk gets through exactly when every page reads, none is
   reached twice and the ceilings hold, and it then lists the records left to right.
   */
  lemma EntriesIff(t: Bth)
    requires t.WellFormed() && t.root != 0
    ensures var o := Entries(t);
            && (o.error.None? <==> Readable(t, [t.root], t.levels)
                                   && Admits(t.limits.maxItems, {}, Visits(t, [t.root], t.levels))
                                   && |Flatten(t, t.root, t.levels)| <= t.limits.maxItems)
            && (o.error.None? ==> o.emitted == Flatten(t, t.root, t.levels))
  {
    hide Admits, Readable, Visits;
    WalkFromIff(t, [t.root], t.levels, {});
    FlattenOne(t, t.root, t.levels);
  }

  lemma FlattenOne(t: Bth, hid: nat, k: nat)
    requires t.WellFormed()
    ensures FlattenAll(t, [hid], k) == Flatten(t, hid, k)
  {
    assert [hid][1..] == [];
  }

  // --- ordered trees -----------------------------------------------------------------------------

  /** Records and pointers are ordered by their keys as little-endian integers. */
  function RecordOrder(r: Record): nat {
    FromLE(r.key)
  }

  function PointerOrder(p: Pointer): nat {
    FromLE(p.key)
  }

  /** Readable pages, ascending separators, each child's keys inside its separator interval. */
  ghost predicate Ordered(t: Bth, hid: nat, k: nat, low: nat, high: nat)
    requires t.WellFormed()
    decreases k, 0
  {
    if k == 0 then LeafPage(t, hid).Ok? && SortedIn(LeafPage(t, hid).value, RecordOrder, low, high)
    else
      && IndexPage(t, hid).Ok?
      && Separators(IndexPage(t, hid).value, PointerOrder, low, high)
      && OrderedAll(t, IndexPage(t, hid).value, k - 1, high)
  }

  ghost predicate OrderedAll(t: Bth, pointers: seq<Pointer>, k: nat, high: nat)
    requires t.WellFormed()
    decreases k, 1 + |pointers|
  {
    pointers == []
    || (Ordered(t, pointers[0].child, k, FromLE(pointers[0].key), NextKey(pointers, PointerOrder, high))
        && OrderedAll(t, pointers[1..], k, high))
  }

  /** An ordered tree lists its records in ascending key order, inside its interval. */
  lemma {:induction false} OrderedIsSorted(t: Bth, hid: nat, k: nat, low: nat, high: nat)
    requires t.WellFormed() && Ordered(t, hid, k, low, high)
    ensures SortedIn(Flatten(t, hid, k), RecordOrder, low, high)
    decreases k, 0
  {
    hide SortedIn, Separators, Flatten, FlattenAll, OrderedAll, LeafPage, IndexPage;
    if k == 0 {
      FlattenLeaf(t, hid);
    } else {
      FlattenDown(t, hid, k);
      OrderedAllIsSorted(t, IndexPage(t, hid).value, k - 1, low, high);
    }
  }

  lemma {:induction false} OrderedAllIsSorted(t: Bth, pointers: seq<Pointer>, k: nat, low: nat, high: nat)
    requires t.WellFormed() && Separators(pointers, PointerOrder, low, high) && OrderedAll(t, pointers, k, high)
    ensures SortedIn(FlattenAll(t, ChildrenOf(pointers), k), RecordOrder, low, high)
    decreases k, 1 + |pointers|
  {
    if pointers != [] {
      hide SortedIn, Ordered, Separators, Flatten;
      SeparatorsTail(pointers, PointerOrder, low, high);
      var middle := NextKey(pointers, PointerOrder, high);
      var first, rest := Flatten(t, pointers[0].child, k), FlattenAll(t, ChildrenOf(pointers[1..]), k);
      OrderedIsSorted(t, pointers[0].child, k, FromLE(pointers[0].key), middle);
      OrderedAllIsSorted(t, pointers[1..], k, middle, high);
      SortedInWiden(first, RecordOrder, FromLE(pointers[0].key), low, middle);
      SortedInConcat(first, rest, RecordOrder, low, middle, high);
      assert ChildrenOf(pointers)[1..] == ChildrenOf(pointers[1..]);
    } else {
      assert FlattenAll(t, ChildrenOf(pointers), k) == [];
    }
  }

  // --- the lookup on an ordered tree ------------------------------------------------------------------

  lemma {:induction false} ValueForConcat(a: seq<Record>, b: seq<Record>, key: bytes)
    ensures ValueFor(a + b, key) == if ValueFor(a, key).Some? then ValueFor(a, key) else ValueFor(b, key)
  {
    if a == [] {
      assert a + b == b;
    } else {
      assert (a + b)[1..] == a[1..] + b;
      ValueForConcat(a[1..], b, key);
    }
  }

  lemma NotInInterval(records: seq<Record>, low: nat, high: nat, key: bytes)
    requires SortedIn(records, RecordOrder, low, high) && (FromLE(key) < low || high <= FromLE(key))
    ensures ValueFor(records, key) == None
  {
  }

  /** The linear choice: the last pointer whose key is not above the target. */
  lemma {:induction false} ChooseLast(pointers: seq<Pointer>, target: nat, chosen: Option<nat>) returns (p: nat)
    requires forall i, j :: 0 <= i < j < |pointers| ==> FromLE(pointers[i].key) <= FromLE(pointers[j].key)
    ensures p <= |pointers|
    ensures p == 0 ==> forall i :: 0 <= i < |pointers| ==> target < FromLE(pointers[i].key)
    ensures p > 0 ==> FromLE(pointers[p - 1].key) <= target
    ensures 0 < p < |pointers| ==> target < FromLE(pointers[p].key)
    ensures Choose(pointers, target, chosen) == if p == 0 then chosen else Some(pointers[p - 1].child)
    decreases |pointers|
  {
    if pointers == [] || FromLE(pointers[0].key) > target {
      p := 0;
    } else {
      var q := ChooseLast(pointers[1..], target, Some(pointers[0].child));
      p := q + 1;
      if q > 0 {
        assert pointers[1..][q - 1] == pointers[p - 1];
      }
      if p < |pointers| {
        assert pointers[1..][p - 1] == pointers[p];
      }
    }
  }

  /** Only the child whose separator interval holds the key can list it. */
  lemma {:induction false} ValueInChild(t: Bth, pointers: seq<Pointer>, k: nat, low: nat, high: nat, key: bytes, c: nat)
    requires t.WellFormed() && Separators(pointers, PointerOrder, low, high) && OrderedAll(t, pointers, k, high)
    requires c < |pointers| && FromLE(pointers[c].key) <= FromLE(key)
    requires c + 1 < |pointers| ==> FromLE(key) < FromLE(pointers[c + 1].key)
    ensures ValueFor(FlattenAll(t, ChildrenOf(pointers), k), key) == ValueFor(Flatten(t, pointers[c].child, k), key)
    decreases |pointers|
  {
    hide Ordered, Flatten;
    var first, rest := Flatten(t, pointers[0].child, k), FlattenAll(t, ChildrenOf(pointers[1..]), k);
    assert ChildrenOf(pointers)[1..] == ChildrenOf(pointers[1..]);
    assert FlattenAll(t, ChildrenOf(pointers), k) == first + rest;
    hide FlattenAll;
    ValueForConcat(first, rest, key);
    SeparatorsTail(pointers, PointerOrder, low, high);
    var middle := NextKey(pointers, PointerOrder, high);
    OrderedIsSorted(t, pointers[0].child, k, FromLE(pointers[0].key), middle);
    OrderedAllIsSorted(t, pointers[1..], k, middle, high);
    if c > 0 {
      assert FromLE(pointers[1].key) <= FromLE(pointers[c].key);
      NotInInterval(first, FromLE(pointers[0].key), middle, key);
      ValueInChild(t, pointers[1..], k, middle, high, key, c - 1);
    } else if |pointers| > 1 {
      NotInInterval(rest, middle, high, key);
    } else {
      NothingBelow(t, pointers[1..], k);
    }
  }

  lemma NothingBelow(t: Bth, pointers: seq<Pointer>, k: nat)
    requires t.WellFormed() && pointers == []
    ensures FlattenAll(t, ChildrenOf(pointers), k) == []
  {
  }

  lemma BelowFirstKey(t: Bth, pointers: seq<Pointer>, k: nat, low: nat, high: nat, key: bytes)
    requires t.WellFormed() && Separators(pointers, PointerOrder, low, high) && OrderedAll(t, pointers, k, high)
    requires forall i :: 0 <= i < |pointers| ==> FromLE(key) < FromLE(pointers[i].key)
    ensures ValueFor(FlattenAll(t, ChildrenOf(pointers), k), key) == None
  {
    if pointers == [] {
      NothingBelow(t, pointers, k);
    } else {
      hide OrderedAll;
      var first := FromLE(pointers[0].key);
      assert Separators(pointers, PointerOrder, first, high);
      OrderedAllIsSorted(t, pointers, k, first, high);
      NotInInterval(FlattenAll(t, ChildrenOf(pointers), k), first, high, key);
    }
  }

  lemma {:induction false} OrderedChild(t: Bth, pointers: seq<Pointer>, k: nat, high: nat, c: nat)
    requires t.WellFormed() && OrderedAll(t, pointers, k, high) && c < |pointers|
    ensures Ordered(t, pointers[c].child, k, FromLE(pointers[c].key), NextKey(pointers[c..], PointerOrder, high))
    decreases c
  {
    hide Ordered, NextKey, FromLE;
    if c > 0 {
      OrderedChild(t, pointers[1..], k, high, c - 1);
      assert pointers[1..][c - 1..] == pointers[c..];
    } else {
      assert pointers[0..] == pointers;
    }
  }

  lemma {:induction false} ChildrenAt(pointers: seq<Pointer>, c: nat)
    requires c < |pointers|
    ensures ChildrenOf(pointers)[c] == pointers[c].child
  {
    if c > 0 {
      ChildrenAt(pointers[1..], c - 1);
    }
  }

  lemma {:induction false} ChildIsBelow(t: Bth, hids: seq<nat>, hid: nat, c: nat)
    requires t.WellFormed() && hid in hids && IndexPage(t, hid).Ok? && c < |IndexPage(t, hid).value|
    ensures IndexPage(t, hid).value[c].child in BelowAll(t, hids)
  {
    if hids[0] == hid {
      ChildrenAt(IndexPage(t, hid).value, c);
      assert Below(t, hid)[c] in Below(t, hid);
    } else {
      assert hid in hids[1..];
      ChildIsBelow(t, hids[1..], hid, c);
    }
  }

  lemma NotFull(t: Bth, hids: seq<nat>, visits: seq<nat>, hid: nat, seen: set<nat>, entered: set<nat>)
    requires hid in hids && entered <= seen && hids <= visits && Admits(t.limits.maxItems, seen, visits)
    ensures !Full(t, hid, entered)
  {
    assert hid in visits;
    assert |entered| <= |seen| by {
      SubsetSize(entered, seen);
    }
  }

  lemma {:induction false} SubsetSize(a: set<nat>, b: set<nat>)
    requires a <= b
    ensures |a| <= |b|
    decreases |a|
  {
    if a != {} {
      var x :| x in a;
      SubsetSize(a - {x}, b - {x});
    }
  }

  /** What the walk may enter, the lookup may: wherever it is, it answers what the page lists. */
  lemma {:induction false} FindFromIsValue(
      t: Bth, hids: seq<nat>, hid: nat, k: nat, low: nat, high: nat, seen: set<nat>, entered: set<nat>, key: bytes)
    requires t.WellFormed() && hid in hids && Ordered(t, hid, k, low, high)
    requires entered <= seen && Admits(t.limits.maxItems, seen, Visits(t, hids, k))
    ensures FindFrom(t, hid, k, entered, key) == Ok(ValueFor(Flatten(t, hid, k), key))
    decreases k
  {
    hide Full, Admits, ValueFor, Choose, FindFrom, Flatten, FlattenAll, LeafPage, IndexPage, OrderedAll, BelowAll;
    hide SortedIn, NextKey;
    NotFull(t, hids, Visits(t, hids, k), hid, seen, entered);
    if k == 0 {
      FindInLeaf(t, hid, entered, key);
    } else {
      FindDown(t, hid, k, entered, key);
      FlattenDown(t, hid, k);
      var pointers := IndexPage(t, hid).value;
      var below := BelowAll(t, hids);
      assert Visits(t, hids, k) == hids + Visits(t, below, k - 1);
      assert Separators(pointers, PointerOrder, low, high) && OrderedAll(t, pointers, k - 1, high);
      hide Ordered, Visits;
      var p := ChooseLast(pointers, FromLE(key), None);
      hide Separators;
      if p == 0 {
        BelowFirstKey(t, pointers, k - 1, low, high, key);
      } else {
        ValueInChild(t, pointers, k - 1, low, high, key, p - 1);
        OrderedChild(t, pointers, k - 1, high, p - 1);
        ChildIsBelow(t, hids, hid, p - 1);
        AdmitsConcat(t.limits.maxItems, seen, hids, Visits(t, below, k - 1));
        assert hid in Elements(hids);
        FindFromIsValue(t, below, pointers[p - 1].child, k - 1, FromLE(pointers[p - 1].key),
                        NextKey(pointers[p - 1..], PointerOrder, high), seen + Elements(hids), entered + {hid}, key);
      }
    }
  }

  lemma FindInLeaf(t: Bth, hid: nat, entered: set<nat>, key: bytes)
    requires t.WellFormed() && !Full(t, hid, entered) && LeafPage(t, hid).Ok?
    ensures FindFrom(t, hid, 0, entered, key) == Ok(ValueFor(Flatten(t, hid, 0), key))
  {
    hide LeafPage, ValueFor;
  }

  lemma FindDown(t: Bth, hid: nat, k: nat, entered: set<nat>, key: bytes)
    requires t.WellFormed() && k > 0 && !Full(t, hid, entered) && IndexPage(t, hid).Ok?
    ensures var chosen := Choose(IndexPage(t, hid).value, FromLE(key), None);
            FindFrom(t, hid, k, entered, key)
            == if chosen.None? then Ok(None) else FindFrom(t, chosen.value, k - 1, entered + {hid}, key)
  {
    hide FindFrom, IndexPage, Choose, Full;
    FindFromOnce(t, hid, k, entered, key);
  }

  /**
   On every ordered tree the listing gets through, the lookup of a key of the right size returns the value the
   listing has for it, or nothing exactly when it lists none; and the listing is in ascending key order.
   */
  lemma FindAgreesWithEntries(t: Bth, high: nat, key: bytes)
    requires t.WellFormed() && t.root != 0 && Ordered(t, t.root, t.levels, 0, high)
    requires Entries(t).error.None? && |key| == t.keySize
    ensures var listed := Entries(t).emitted;
            && Find(t, key) == Ok(ValueFor(listed, key))
            && (Find(t, key) == Ok(None) <==> forall i :: 0 <= i < |listed| ==> listed[i].key != key)
            && SortedIn(listed, RecordOrder, 0, high)
  {
    hide Entries, Ordered, Flatten, ValueFor, Admits, FindFrom;
    EntriesIff(t);
    FindFromIsValue(t, [t.root], t.root, t.levels, 0, high, {}, {}, key);
    OrderedIsSorted(t, t.root, t.levels, 0, high);
  }

  // --- arbitrary heaps -------------------------------------------------------------------------------------

  /** A chain of index records from page `path[0]` down to a leaf that holds `record`. */
  ghost predicate LeadsTo(t: Bth, path: seq<nat>, record: Record)
    requires t.WellFormed()
    decreases |path|
  {
    && path != []
    && if |path| == 1 then LeafPage(t, path[0]).Ok? && record in LeafPage(t, path[0]).value
       else IndexPage(t, path[0]).Ok? && path[1] in Below(t, path[0]) && LeadsTo(t, path[1..], record)
  }

  lemma {:induction false} ChooseIsChild(pointers: seq<Pointer>, target: nat, chosen: Option<nat>)
    requires Choose(pointers, target, chosen).Some?
    ensures Choose(pointers, target, chosen) == chosen || Choose(pointers, target, chosen).value in ChildrenOf(pointers)
  {
    if pointers != [] && FromLE(pointers[0].key) <= target {
      ChooseIsChild(pointers[1..], target, Some(pointers[0].child));
    }
  }

  /** On any heap, what the lookup returns is a record of a leaf it reached over one distinct page per level. */
  lemma {:induction false} FindIsSound(t: Bth, hid: nat, k: nat, seen: set<nat>, key: bytes) returns (path: seq<nat>)
    requires t.WellFormed() && FindFrom(t, hid, k, seen, key).Ok? && FindFrom(t, hid, k, seen, key).value.Some?
    ensures LeadsTo(t, path, Record(key, FindFrom(t, hid, k, seen, key).value.value)) && path[0] == hid
    ensures |path| == k + 1 && Distinct(path) && forall page :: page in path ==> page !in seen
    decreases k
  {
    hide FindFrom, IndexPage, LeafPage, Below;
    if k == 0 {
      FindInFound(t, hid, seen, key);
      path := [hid];
    } else {
      var child := FindStep(t, hid, k, seen, key);
      var rest := FindIsSound(t, child, k - 1, seen + {hid}, key);
      path := [hid] + rest;
      assert path[1..] == rest;
    }
  }

  lemma FindInFound(t: Bth, hid: nat, seen: set<nat>, key: bytes)
    requires t.WellFormed() && FindFrom(t, hid, 0, seen, key).Ok? && FindFrom(t, hid, 0, seen, key).value.Some?
    ensures hid !in seen && LeafPage(t, hid).Ok?
    ensures Record(key, FindFrom(t, hid, 0, seen, key).value.value) in LeafPage(t, hid).value
  {
    hide LeafPage;
  }

  lemma FindStep(t: Bth, hid: nat, k: nat, seen: set<nat>, key: bytes) returns (child: nat)
    requires t.WellFormed() && k > 0
    requires FindFrom(t, hid, k, seen, key).Ok? && FindFrom(t, hid, k, seen, key).value.Some?
    ensures hid !in seen && IndexPage(t, hid).Ok? && child in Below(t, hid)
    ensures FindFrom(t, hid, k, seen, key) == FindFrom(t, child, k - 1, seen + {hid}, key)
  {
    var pointers := IndexPage(t, hid).value;
    child := Choose(pointers, FromLE(key), None).value;
    ChooseIsChild(pointers, FromLE(key), None);
  }
}
