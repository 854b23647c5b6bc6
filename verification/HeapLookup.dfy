/**
 Looking keys up in a built tree: built over ascending pairs it is ordered, so the one-path lookup answers what the
 pairs say.
 */
module HeapLookup {
  import opened Wire
  import opened Limits
  import Traversal
  import opened Heap
  import opened HeapTree
  import opened HeapOrder
  import opened Ordering
  import opened HeapBuilder
  import opened HeapRoundTrip

  /** Strictly ascending keys, all below `high`. */
  ghost predicate Ascending(pairs: seq<Record>, high: nat) {
    && (forall i :: 0 <= i < |pairs| ==> FromLE(pairs[i].key) < high)
    && (forall i, j :: 0 <= i < j < |pairs| ==> FromLE(pairs[i].key) < FromLE(pairs[j].key))
  }

  lemma AscendingSplit(a: seq<Record>, b: seq<Record>, high: nat)
    requires a != [] && Ascending(a + b, high)
    ensures SortedIn(a, RecordOrder, FromLE(a[0].key), if b == [] then high else FromLE(b[0].key))
    ensures Ascending(b, high)
    ensures b != [] ==> FromLE(a[0].key) < FromLE(b[0].key)
    ensures FromLE(a[0].key) < high
  {
    var all := a + b;
    assert forall i :: 0 <= i < |a| ==> all[i] == a[i];
    assert forall i :: 0 <= i < |b| ==> all[|a| + i] == b[i];
  }

  /** The pointers of a level, ascending from the first one's key, each page below inside its interval. */
  ghost predicate OrderedLevel(t: Bth, refs: seq<Pointer>, k: nat, high: nat)
    requires t.WellFormed()
  {
    refs != [] ==> Separators(refs, PointerOrder, FromLE(refs[0].key), high) && OrderedAll(t, refs, k, high)
  }

  lemma OrderedCons(t: Bth, p: Pointer, rest: seq<Pointer>, k: nat, high: nat)
    requires t.WellFormed() && OrderedLevel(t, rest, k, high)
    requires FromLE(p.key) <= if rest == [] then high else FromLE(rest[0].key)
    requires Ordered(t, p.child, k, FromLE(p.key), if rest == [] then high else FromLE(rest[0].key))
    ensures OrderedLevel(t, [p] + rest, k, high)
  {
    hide Ordered;
    var refs := [p] + rest;
    assert refs[1..] == rest;
    assert NextKey(refs, PointerOrder, high) == if rest == [] then high else FromLE(rest[0].key);
    assert OrderedAll(t, refs, k, high);
    hide OrderedAll;
    forall i | 0 < i < |refs|
      ensures FromLE(p.key) <= FromLE(refs[i].key) <= high
    {
      assert refs[i] == rest[i - 1];
    }
    forall i, j | 0 < i < j < |refs|
      ensures FromLE(refs[i].key) <= FromLE(refs[j].key)
    {
      assert refs[i] == rest[i - 1] && refs[j] == rest[j - 1];
    }
  }

  lemma LeafFirstKeys(groups: seq<seq<Record>>)
    requires forall i :: 0 <= i < |groups| ==> groups[i] != []
    ensures forall i :: 0 <= i < |groups| ==> FirstKeys(groups, RecordKey)[i] == groups[i][0].key
  {
    forall i | 0 <= i < |groups|
      ensures FirstKeys(groups, RecordKey)[i] == groups[i][0].key
    {
      assert FirstKeys(groups, RecordKey)[i] == RecordKey(groups[i][0]);
    }
  }

  lemma IndexFirstKeys(groups: seq<seq<Pointer>>)
    requires forall i :: 0 <= i < |groups| ==> groups[i] != []
    ensures forall i :: 0 <= i < |groups| ==> FirstKeys(groups, PointerKey)[i] == groups[i][0].key
  {
    forall i | 0 <= i < |groups|
      ensures FirstKeys(groups, PointerKey)[i] == groups[i][0].key
    {
      assert FirstKeys(groups, PointerKey)[i] == PointerKey(groups[i][0]);
    }
  }

  lemma {:induction false} LeafLevelOrdered(t: Bth, groups: seq<seq<Record>>, n: nat, high: nat)
    requires t.WellFormed() && PagesAt(LeafReader(t), groups, n) && Ascending(JoinGroups(groups), high)
    requires forall i :: 0 <= i < |groups| ==> groups[i] != []
    ensures OrderedLevel(t, Number(FirstKeys(groups, RecordKey), n), 0, high)
    decreases |groups|
  {
    hide PagesAt, Ascending, OrderedLevel, SortedIn, LeafPage, PageHid;
    if groups == [] {
      NothingOrdered(t, 0, high);
    } else {
      var rest := groups[1..];
      PagesAtTail(LeafReader(t), groups, n);
      AscendingSplit(groups[0], JoinGroups(rest), high);
      LeafLevelOrdered(t, rest, n + 1, high);
      assert FirstKeys(groups, RecordKey)[1..] == FirstKeys(rest, RecordKey);
      assert rest != [] ==> JoinGroups(rest) != [] && JoinGroups(rest)[0] == rest[0][0];
      LeafFirstKeys(rest);
      LeafFirstKeys(groups);
      assert LeafPage(t, PageHid(n)) == LeafReader(t)(PageHid(n));
      OrderedCons(t, Pointer(groups[0][0].key, PageHid(n)), Number(FirstKeys(rest, RecordKey), n + 1), 0, high);
    }
  }

  lemma NothingOrdered(t: Bth, k: nat, high: nat)
    requires t.WellFormed()
    ensures OrderedLevel(t, [], k, high)
  {
  }

  /** A level cut in two stays ordered on both sides, the left one below the first key of the right. */
  lemma {:induction false} OrderedSplit(t: Bth, a: seq<Pointer>, b: seq<Pointer>, k: nat, high: nat)
    requires t.WellFormed() && OrderedAll(t, a + b, k, high)
    ensures OrderedAll(t, a, k, if b == [] then high else FromLE(b[0].key)) && OrderedAll(t, b, k, high)
    decreases |a|
  {
    hide Ordered, FromLE;
    if a == [] {
      assert a + b == b;
    } else {
      assert (a + b)[0] == a[0] && (a + b)[1..] == a[1..] + b;
      OrderedSplit(t, a[1..], b, k, high);
      assert NextKey(a + b, PointerOrder, high) == NextKey(a, PointerOrder, if b == [] then high else FromLE(b[0].key));
    }
  }

  lemma SeparatorsSplit(a: seq<Pointer>, b: seq<Pointer>, high: nat)
    requires a != [] && Separators(a + b, PointerOrder, FromLE((a + b)[0].key), high)
    ensures Separators(a, PointerOrder, FromLE(a[0].key), if b == [] then high else FromLE(b[0].key))
    ensures b != [] ==> Separators(b, PointerOrder, FromLE(b[0].key), high)
    ensures FromLE(a[0].key) <= if b == [] then high else FromLE(b[0].key)
  {
    var all := a + b;
    assert forall i :: 0 <= i < |a| ==> all[i] == a[i];
    assert forall i :: 0 <= i < |b| ==> all[|a| + i] == b[i];
  }

  lemma {:induction false} IndexLevelOrdered(t: Bth, groups: seq<seq<Pointer>>, n: nat, k: nat, high: nat)
    requires t.WellFormed() && PagesAt(IndexReader(t), groups, n) && OrderedLevel(t, JoinGroups(groups), k, high)
    requires forall i :: 0 <= i < |groups| ==> groups[i] != []
    ensures OrderedLevel(t, Number(FirstKeys(groups, PointerKey), n), k + 1, high)
    decreases |groups|
  {
    hide PagesAt, Separators, OrderedAll, IndexPage, PageHid;
    if groups == [] {
      NothingOrdered(t, k + 1, high);
    } else {
      var first, rest := groups[0], groups[1..];
      var after := JoinGroups(rest);
      PagesAtTail(IndexReader(t), groups, n);
      OrderedSplit(t, first, after, k, high);
      SeparatorsSplit(first, after, high);
      IndexLevelOrdered(t, rest, n + 1, k, high);
      hide OrderedLevel;
      assert FirstKeys(groups, PointerKey)[1..] == FirstKeys(rest, PointerKey);
      assert rest != [] ==> after != [] && after[0] == rest[0][0];
      IndexFirstKeys(rest);
      IndexFirstKeys(groups);
      assert IndexPage(t, PageHid(n)) == IndexReader(t)(PageHid(n));
      OrderedCons(t, Pointer(first[0].key, PageHid(n)), Number(FirstKeys(rest, PointerKey), n + 1), k + 1, high);
    }
  }

  /** Every level placed on an ordered one is ordered. */
  lemma {:induction false} LevelsOrdered(
      t: Bth, placed: Placed, k: nat, more: nat, fanout: nat, pairs: seq<Record>, high: nat)
    requires t.WellFormed() && Reads(t, placed, k, pairs) && (more > 0 ==> fanout > 0)
    requires Holds(t, PlaceLevels(placed, more, fanout).pages)
    requires |PlaceLevels(placed, more, fanout).pages| + 2 < U16
    requires OrderedLevel(t, placed.refs, k, high)
    ensures OrderedLevel(t, PlaceLevels(placed, more, fanout).refs, k + more, high)
    decreases more
  {
    hide Readable, FlattenAll, Covers, Pointing, Visits, ChildrenOf, Holds, Chunks, Number, JoinGroups, OrderedLevel;
    if more > 0 {
      var groups := IndexGroups(placed.refs, more, fanout);
      var next := PlaceIndexes(placed.pages, groups);
      IndexGroupsJoin(placed.refs, more, fanout);
      PlacedPrefix(next, more - 1, fanout);
      HoldsPrefix(t, next.pages, PlaceLevels(placed, more, fanout).pages);
      IndexesRead(t, placed, groups, k, pairs);
      IndexItemsRead(t, placed.pages, groups);
      IndexLevelOrdered(t, groups, |placed.pages|, k, high);
      LevelsOrdered(t, next, k + 1, more - 1, fanout, pairs, high);
    }
  }

  lemma PagesOrdered(t: Bth, pairs: seq<Record>, levels: nat, fanout: nat, high: nat)
    requires t.WellFormed() && pairs != [] && Sized(pairs, t.keySize, t.entrySize) && (levels > 0 ==> fanout > 0)
    requires Holds(t, Pages(pairs, levels, fanout).pages) && |Pages(pairs, levels, fanout).pages| + 2 < U16
    requires Ascending(pairs, high)
    ensures OrderedLevel(t, Pages(pairs, levels, fanout).refs, levels, high)
  {
    hide Reads, Holds, Sized, Chunks, PlaceLevels, Ascending, OrderedLevel, PagesAt;
    hide Packed, FirstKeys, Number, LeafBytes, PlaceLeaves;
    var groups := LeafGroups(pairs, levels, fanout);
    var leaves := PlaceLeaves(groups);
    LeafGroupsJoin(pairs, levels, fanout);
    PlacedLeaves(groups);
    PlacedPrefix(leaves, levels, fanout);
    HoldsPrefix(t, leaves.pages, Pages(pairs, levels, fanout).pages);
    LeavesRead(t, groups);
    LeafItemsRead(t, groups);
    LeafLevelOrdered(t, groups, 0, high);
    LevelsOrdered(t, leaves, 0, levels, fanout, pairs, high);
  }

  lemma OrderedWiden(t: Bth, hid: nat, k: nat, low: nat, high: nat)
    requires t.WellFormed() && Ordered(t, hid, k, low, high)
    ensures Ordered(t, hid, k, 0, high)
  {
    hide OrderedAll, LeafPage, IndexPage;
  }

  /**
   In a heap built over ascending pairs that lists at all, looking up any key of the right size returns the value
   it was paired with, and nothing exactly when it was paired with none.
   */
  lemma TreeHeapFinds(
      pairs: seq<Record>, keySize: nat, entrySize: nat, levels: nat, fanout: nat, client: byte, limits: Limits,
      key: bytes)
    requires TreeHeap(pairs, keySize, entrySize, levels, fanout, client).Ok? && client in CLIENT_TYPES
    requires KeySize(keySize) && 1 <= entrySize <= 32 && levels <= limits.maxHeapTreeDepth
    requires Sized(pairs, keySize, entrySize) && Ascending(pairs, Pow256(keySize)) && |key| == keySize
    requires TreeAt([TreeHeap(pairs, keySize, entrySize, levels, fanout, client).value], limits, 32).Ok?
    requires Entries(TreeAt([TreeHeap(pairs, keySize, entrySize, levels, fanout, client).value], limits, 32).value).error.None?
    ensures var t := TreeAt([TreeHeap(pairs, keySize, entrySize, levels, fanout, client).value], limits, 32).value;
            Find(t, key) == Ok(ValueFor(pairs, key))
  {
    hide Block, Entries, Pages, Sized, Holds, UnpackHeader, TreeHeaderBytes, HeaderOf, Item, Ascending, FindFrom;
    hide Ordered, OrderedAll, Separators;
    var items := TreeItems(pairs, keySize, entrySize, levels, fanout).value;
    var t := TreeOpens(pairs, keySize, entrySize, levels, fanout, client, limits);
    TreeHeapReads(pairs, keySize, entrySize, levels, fanout, client, limits);
    hide TreeItems, TreeHeap, ValueFor, Find, TreeAt;
    if pairs == [] {
      NothingFound(t, key);
    } else {
      ItemsArePages(pairs, keySize, entrySize, levels, fanout);
      ItemsHeld(t, items, client);
      BuiltFinds(t, pairs, fanout, key);
    }
  }

  lemma NothingFound(t: Bth, key: bytes)
    requires t.WellFormed() && t.root == 0 && |key| == t.keySize
    ensures Find(t, key) == Ok(ValueFor([], key))
  {
  }

  lemma BuiltFinds(t: Bth, pairs: seq<Record>, fanout: nat, key: bytes)
    requires t.WellFormed() && pairs != [] && Sized(pairs, t.keySize, t.entrySize) && (t.levels > 0 ==> fanout > 0)
    requires Ascending(pairs, Pow256(t.keySize)) && |key| == t.keySize
    requires Holds(t, Pages(pairs, t.levels, fanout).pages) && |Pages(pairs, t.levels, fanout).pages| + 2 < U16
    requires t.root == Pages(pairs, t.levels, fanout).refs[0].child
    requires Entries(t).error.None?
    ensures Find(t, key) == Ok(ValueFor(pairs, key))
  {
    hide Sized, Holds, Ascending, Entries, Pages, Ordered, Separators, OrderedAll, Find, ValueFor;
    var refs, high := Pages(pairs, t.levels, fanout).refs, Pow256(t.keySize);
    PagesOrdered(t, pairs, t.levels, fanout, high);
    RootHid(pairs, t.levels, fanout);
    OrderedRoot(t, refs, t.levels, high);
    BuiltListed(t, pairs, fanout);
    FindAgreesWithEntries(t, high, key);
  }

  lemma OrderedRoot(t: Bth, refs: seq<Pointer>, k: nat, high: nat)
    requires t.WellFormed() && refs != [] && OrderedLevel(t, refs, k, high)
    ensures |refs| == 1 ==> Ordered(t, refs[0].child, k, 0, high)
  {
    hide Separators;
    assert OrderedAll(t, refs, k, high);
    hide Ordered;
    if |refs| == 1 {
      OrderedWiden(t, refs[0].child, k, FromLE(refs[0].key), high);
    }
  }

  // --- end to end ------------------------------------------------------------------------------------

  /** A built heap counts as many allocations as it has items. */
  lemma BuiltFits(block: bytes, items: seq<bytes>, client: byte, limits: Limits)
    requires client in CLIENT_TYPES && Block(HeaderBytes(client, 32), items, 0) == Ok(block)
    ensures Fits([block], limits) <==> |items| <= limits.maxHeapItems
  {
    hide Block, ParsedPageMap, UnpackHeader, Freed, Offsets;
    HeaderHeads(client);
    BlockAccepted(0, HeaderBytes(client, 32), items, 0);
    assert ItemCount([block], 0) == |items|;
    assert AllItems([block], 1) == AllItems([block], 0) + |items|;
  }

  /** Build a heap over `pairs`, open it, open its tree, list it. */
  method ReadBack(
      pairs: seq<Record>, keySize: nat, entrySize: nat, levels: nat, fanout: nat, client: byte, limits: Limits)
    returns (r: Result<seq<Record>>)
    requires client in CLIENT_TYPES && KeySize(keySize) && 1 <= entrySize <= 32 && Sized(pairs, keySize, entrySize)
    requires levels <= limits.maxHeapTreeDepth
    ensures TreeHeap(pairs, keySize, entrySize, levels, fanout, client).Err?
            ==> r == Err(TreeHeap(pairs, keySize, entrySize, levels, fanout, client).error)
    ensures TreeHeap(pairs, keySize, entrySize, levels, fanout, client).Ok? ==>
              var n := |TreeItems(pairs, keySize, entrySize, levels, fanout).value|;
              n <= limits.maxHeapItems && n <= MAX_ITEM_INDEX && n - 1 <= limits.maxItems && |pairs| <= limits.maxItems
              ==> r == Ok(pairs)
  {
    hide TreeItems, Entries, HeapNode.Valid, Block, UnpackHeader, HeaderOf, Item, Sized, Fits;
    var built := BthHeap(pairs, keySize, entrySize, levels, fanout, client);
    if built.Err? {
      return Err(built.error);
    }
    TreeHeapReads(pairs, keySize, entrySize, levels, fanout, client, limits);
    BuiltFits(built.value, TreeItems(pairs, keySize, entrySize, levels, fanout).value, client, limits);
    var heap := HeapNode.Open([built.value], limits);
    if heap.Err? {
      return Err(heap.error);
    }
    var reader := Reader.Open(heap.value, None);
    if reader.Err? {
      return Err(reader.error);
    }
    var listed := reader.value.ReadEntries();
    return if listed.error.Some? then Err(listed.error.value) else Ok(listed.emitted);
  }
}
