/**
 Reading a built tree back: the reader lists exactly the pairs the builder was given, for every fanout and number
 of levels, as long as the items fit their 11-bit indices and the reader's ceilings.
 */
module HeapRoundTrip {
  import opened Wire
  import opened Limits
  import Traversal
  import opened Heap
  import opened HeapTree
  import opened HeapOrder
  import opened HeapBuilder

  // --- groups ----------------------------------------------------------------------------

  function JoinGroups<T>(groups: seq<seq<T>>): seq<T> {
    if groups == [] then [] else groups[0] + JoinGroups(groups[1..])
  }

  lemma {:induction false} ChunksJoin<T>(s: seq<T>, size: nat)
    requires size > 0
    ensures JoinGroups(Chunks(s, size)) == s
    decreases |s|
  {
    if |s| <= size {
      assert [s][1..] == [];
    } else {
      ChunksJoin(s[size..], size);
      assert Chunks(s, size)[1..] == Chunks(s[size..], size);
      assert s == s[..size] + s[size..];
    }
  }

  lemma JoinOne<T>(group: seq<T>)
    ensures JoinGroups([group]) == group
  {
    assert [group][1..] == [];
  }

  lemma {:induction false} GroupMembers<T>(groups: seq<seq<T>>, i: nat, x: T)
    requires i < |groups| && x in groups[i]
    ensures x in JoinGroups(groups)
  {
    if i > 0 {
      assert groups[1..][i - 1] == groups[i];
      GroupMembers(groups[1..], i - 1, x);
    }
  }

  // --- pages -----------------------------------------------------------------------------------

  ghost predicate Sized(pairs: seq<Record>, keySize: nat, entrySize: nat) {
    forall pair :: pair in pairs ==> |pair.key| == keySize && |pair.value| == entrySize
  }

  lemma {:induction false} LeafLength(page: seq<Record>, keySize: nat, entrySize: nat)
    requires Sized(page, keySize, entrySize)
    ensures |LeafBytes(page)| == |page| * (keySize + entrySize)
  {
    hide Sized;
    if page != [] {
      SizedHead(page, keySize, entrySize);
      LeafLength(page[1..], keySize, entrySize);
      OneMore(|page| - 1, keySize + entrySize);
    }
  }

  lemma SizedHead(page: seq<Record>, keySize: nat, entrySize: nat)
    requires page != [] && Sized(page, keySize, entrySize)
    ensures |page[0].key| == keySize && |page[0].value| == entrySize && Sized(page[1..], keySize, entrySize)
  {
    assert page[0] in page;
  }

  lemma LeafNotEmpty(page: seq<Record>, keySize: nat, entrySize: nat)
    requires Sized(page, keySize, entrySize) && keySize > 0 && page != []
    ensures LeafBytes(page) != []
  {
    assert page[0] in page;
  }

  lemma IndexNotEmpty(page: seq<Pointer>)
    requires page != []
    ensures IndexBytes(page) != []
  {
  }

  lemma NoLeafRecords(keySize: nat, entrySize: nat)
    requires keySize > 0 && entrySize > 0
    ensures LeafRecords([], keySize, keySize + entrySize) == []
  {
  }

  lemma FirstLeafRecord(key: bytes, value: bytes, rest: bytes)
    requires |key| > 0 && |value| > 0
    ensures LeafRecords(key + value + rest, |key|, |key| + |value|)
         == [Record(key, value)] + LeafRecords(rest, |key|, |key| + |value|)
  {
    var b, stride := key + value + rest, |key| + |value|;
    assert b[..|key|] == key && b[|key|..stride] == value && b[stride..] == rest;
  }

  lemma {:induction false} LeafRoundTrip(page: seq<Record>, keySize: nat, entrySize: nat)
    requires Sized(page, keySize, entrySize) && keySize > 0 && entrySize > 0
    ensures LeafRecords(LeafBytes(page), keySize, keySize + entrySize) == page
  {
    hide LeafRecords, Sized;
    if page == [] {
      NoLeafRecords(keySize, entrySize);
    } else {
      SizedHead(page, keySize, entrySize);
      FirstLeafRecord(page[0].key, page[0].value, LeafBytes(page[1..]));
      LeafRoundTrip(page[1..], keySize, entrySize);
      assert page == [page[0]] + page[1..];
    }
  }

  /** Pointers an index record can hold: keys of the tree's size, ids without type bits. */
  ghost predicate Pointing(page: seq<Pointer>, keySize: nat) {
    forall p :: p in page ==> |p.key| == keySize && HeapId(p.child).Ok?
  }

  lemma {:induction false} IndexLength(page: seq<Pointer>, keySize: nat)
    requires Pointing(page, keySize)
    ensures |IndexBytes(page)| == |page| * (keySize + HID_SIZE)
  {
    hide HeapId, LE;
    if page != [] {
      assert page[0] in page && forall p :: p in page[1..] ==> p in page;
      IndexLength(page[1..], keySize);
      OneMore(|page| - 1, keySize + HID_SIZE);
    }
  }

  lemma NoIndexRecords(keySize: nat)
    ensures IndexRecords([], keySize) == Ok([])
  {
  }

  lemma FirstIndexRecord(p: Pointer, rest: bytes)
    requires HeapId(p.child).Ok? && IndexRecords(rest, |p.key|).Ok?
    ensures IndexRecords(p.key + LE(p.child, 4) + rest, |p.key|) == Ok([p] + IndexRecords(rest, |p.key|).value)
  {
    var b, stride := p.key + LE(p.child, 4) + rest, |p.key| + HID_SIZE;
    FieldWidths();
    FromLEofLE(p.child, 4);
    hide LE, FromLE;
    assert b[..|p.key|] == p.key && b[|p.key|..stride] == LE(p.child, 4) && b[stride..] == rest;
  }

  lemma {:induction false} IndexRoundTrip(page: seq<Pointer>, keySize: nat)
    requires Pointing(page, keySize) && keySize > 0
    ensures IndexRecords(IndexBytes(page), keySize) == Ok(page)
  {
    hide IndexRecords, LE, HeapId;
    if page == [] {
      NoIndexRecords(keySize);
    } else {
      assert page[0] in page && forall p :: p in page[1..] ==> p in page;
      IndexRoundTrip(page[1..], keySize);
      FirstIndexRecord(page[0], IndexBytes(page[1..]));
      assert page == [page[0]] + page[1..];
    }
  }

  lemma LeafPageReads(t: Bth, hid: nat, page: seq<Record>)
    requires t.WellFormed() && Sized(page, t.keySize, t.entrySize) && Item(t.blocks, hid) == Ok(LeafBytes(page))
    ensures LeafPage(t, hid) == Ok(page)
  {
    hide Item, LeafRecords, LeafBytes;
    LeafRoundTrip(page, t.keySize, t.entrySize);
    LeafLength(page, t.keySize, t.entrySize);
    QuotientIs(|LeafBytes(page)|, t.LeafStride(), |page|, 0);
  }

  lemma IndexPageReads(t: Bth, hid: nat, page: seq<Pointer>)
    requires t.WellFormed() && Pointing(page, t.keySize) && Item(t.blocks, hid) == Ok(IndexBytes(page))
    ensures IndexPage(t, hid) == Ok(page)
  {
    hide Item, IndexRecords, IndexBytes;
    IndexRoundTrip(page, t.keySize);
    IndexLength(page, t.keySize);
    QuotientIs(|IndexBytes(page)|, t.IndexStride(), |page|, 0);
  }

  // --- numbered levels ------------------------------------------------------------------------

  function Hids(n: nat, count: nat): (hids: seq<nat>)
    ensures |hids| == count
  {
    seq<nat>(count, i requires 0 <= i < count => PageHid(n + i))
  }

  lemma {:induction false} NumberAt(keys: seq<bytes>, n: nat)
    ensures ChildrenOf(Number(keys, n)) == Hids(n, |keys|)
    ensures forall i :: 0 <= i < |keys| ==> Number(keys, n)[i] == Pointer(keys[i], PageHid(n + i))
    decreases |keys|
  {
    if keys != [] {
      NumberAt(keys[1..], n + 1);
      assert Hids(n, |keys|) == [PageHid(n)] + Hids(n + 1, |keys| - 1);
      assert forall i :: 0 < i < |keys| ==> Number(keys, n)[i] == Number(keys[1..], n + 1)[i - 1];
    }
  }

  lemma {:induction false} ChildrenConcat(a: seq<Pointer>, b: seq<Pointer>)
    ensures ChildrenOf(a + b) == ChildrenOf(a) + ChildrenOf(b)
  {
    if a == [] {
      assert a + b == b;
    } else {
      assert (a + b)[1..] == a[1..] + b;
      ChildrenConcat(a[1..], b);
    }
  }

  function LeafReader(t: Bth): nat -> Result<seq<Record>>
    requires t.WellFormed()
  {
    (hid: nat) => LeafPage(t, hid)
  }

  function IndexReader(t: Bth): nat -> Result<seq<Pointer>>
    requires t.WellFormed()
  {
    (hid: nat) => IndexPage(t, hid)
  }

  /** From page `n` on, `groups` is what the pages read as. */
  ghost predicate PagesAt<T>(read: nat -> Result<seq<T>>, groups: seq<seq<T>>, n: nat) {
    forall i: nat :: i < |groups| ==> read(PageHid(n + i)) == Ok(groups[i])
  }

  lemma PagesAtTail<T>(read: nat -> Result<seq<T>>, groups: seq<seq<T>>, n: nat)
    requires groups != [] && PagesAt(read, groups, n)
    ensures read(PageHid(n)) == Ok(groups[0]) && PagesAt(read, groups[1..], n + 1)
  {
    hide PageHid;
    assert n + 0 == n;
    forall i: nat | i < |groups[1..]|
      ensures read(PageHid(n + 1 + i)) == Ok(groups[1..][i])
    {
      assert n + 1 + i == n + (i + 1);
    }
  }

  lemma {:induction false} LeafLevel(t: Bth, groups: seq<seq<Record>>, n: nat)
    requires t.WellFormed() && PagesAt(LeafReader(t), groups, n)
    ensures Readable(t, Hids(n, |groups|), 0) && FlattenAll(t, Hids(n, |groups|), 0) == JoinGroups(groups)
    decreases |groups|
  {
    hide LeafPage, PagesAt, Flatten, FlattenAll;
    if groups == [] {
      NothingFlat(t, 0);
      assert Hids(n, 0) == [];
    } else {
      PagesAtTail(LeafReader(t), groups, n);
      assert Hids(n, |groups|) == [PageHid(n)] + Hids(n + 1, |groups| - 1);
      LeafLevel(t, groups[1..], n + 1);
      FlattenHead(t, Hids(n, |groups|), 0);
      FlattenLeaf(t, PageHid(n));
    }
  }

  lemma {:induction false} IndexLevel(t: Bth, groups: seq<seq<Pointer>>, n: nat)
    requires t.WellFormed() && PagesAt(IndexReader(t), groups, n)
    ensures forall hid :: hid in Hids(n, |groups|) ==> IndexPage(t, hid).Ok?
    ensures BelowAll(t, Hids(n, |groups|)) == ChildrenOf(JoinGroups(groups))
    decreases |groups|
  {
    hide IndexPage, PagesAt;
    if groups == [] {
      assert Hids(n, 0) == [];
    } else {
      PagesAtTail(IndexReader(t), groups, n);
      assert Hids(n, |groups|) == [PageHid(n)] + Hids(n + 1, |groups| - 1);
      IndexLevel(t, groups[1..], n + 1);
      ChildrenConcat(groups[0], JoinGroups(groups[1..]));
    }
  }

  // --- a level the builder has placed ------------------------------------------------------------

  /** The pages placed are the items of the heap, as far as their ids name items of its one block. */
  ghost predicate Holds(t: Bth, pages: seq<bytes>) {
    forall n: nat :: n < |pages| && pages[n] != [] ==> Item(t.blocks, PageHid(n)) == Ok(pages[n])
  }

  /** All pages below the newest level, itself included: each once, and none beyond the pages placed. */
  ghost predicate Covers(visits: seq<nat>, n: nat) {
    Traversal.Distinct(visits) && |visits| == n && forall hid :: hid in visits ==> PageHid(0) <= hid < PageHid(n)
  }

  /** `placed` ends in a level from which the reader, `k` levels above the leaves, gets back `pairs`. */
  ghost predicate Reads(t: Bth, placed: Placed, k: nat, pairs: seq<Record>)
    requires t.WellFormed()
  {
    var hids := ChildrenOf(placed.refs);
    && placed.refs != [] && Pointing(placed.refs, t.keySize)
    && Readable(t, hids, k) && FlattenAll(t, hids, k) == pairs && Covers(Visits(t, hids, k), |placed.pages|)
  }

  lemma PageHidValid(n: nat)
    requires n + 2 < U16
    ensures HeapId(PageHid(n)).Ok?
  {
  }

  lemma LeafItemsRead(t: Bth, groups: seq<seq<Record>>)
    requires t.WellFormed() && Holds(t, Packed(groups, LeafBytes))
    requires Sized(JoinGroups(groups), t.keySize, t.entrySize) && forall i :: 0 <= i < |groups| ==> groups[i] != []
    ensures PagesAt(LeafReader(t), groups, 0)
  {
    hide Holds, LeafPage, PageHid, Sized, Packed, JoinGroups;
    forall i: nat | i < |groups|
      ensures LeafReader(t)(PageHid(0 + i)) == Ok(groups[i])
    {
      LeafItemReads(t, groups, i);
    }
  }

  lemma LeafItemReads(t: Bth, groups: seq<seq<Record>>, i: nat)
    requires t.WellFormed() && Holds(t, Packed(groups, LeafBytes))
    requires Sized(JoinGroups(groups), t.keySize, t.entrySize) && i < |groups| && groups[i] != []
    ensures LeafPage(t, PageHid(i)) == Ok(groups[i])
  {
    hide Holds, Item, LeafPage, PageHid, LeafBytes, JoinGroups, Sized;
    var all := Packed(groups, LeafBytes);
    GroupSized(groups, i, t.keySize, t.entrySize);
    LeafNotEmpty(groups[i], t.keySize, t.entrySize);
    assert all[i] == LeafBytes(groups[i]);
    HeldAt(t, all, i);
    LeafPageReads(t, PageHid(i), groups[i]);
  }

  lemma GroupSized(groups: seq<seq<Record>>, i: nat, keySize: nat, entrySize: nat)
    requires Sized(JoinGroups(groups), keySize, entrySize) && i < |groups|
    ensures Sized(groups[i], keySize, entrySize)
  {
    hide JoinGroups;
    forall pair | pair in groups[i]
      ensures |pair.key| == keySize && |pair.value| == entrySize
    {
      GroupMembers(groups, i, pair);
    }
  }

  lemma LeavesRead(t: Bth, groups: seq<seq<Record>>)
    requires t.WellFormed() && groups != [] && |groups| + 2 < U16
    requires Sized(JoinGroups(groups), t.keySize, t.entrySize) && forall i :: 0 <= i < |groups| ==> groups[i] != []
    requires Holds(t, PlaceLeaves(groups).pages)
    ensures Reads(t, PlaceLeaves(groups), 0, JoinGroups(groups))
  {
    hide Holds, PagesAt, Readable, FlattenAll, JoinGroups, Covers, Pointing, Sized, ChildrenOf, Hids, Number, FirstKeys;
    hide LeafBytes, Visits, Packed, PlaceLeaves;
    PlacedLeaves(groups);
    LeafItemsRead(t, groups);
    LeafLevel(t, groups, 0);
    SizedKeys(JoinGroups(groups), t.keySize, t.entrySize);
    LevelPointing(groups, RecordKey, t.keySize, 0);
    NothingCovered();
    CoversMore([], 0, |groups|);
    assert Hids(0, |groups|) + [] == Hids(0, |groups|);
    VisitsOfLeaves(t, Hids(0, |groups|));
  }

  lemma PlacedLeaves(groups: seq<seq<Record>>)
    requires forall i :: 0 <= i < |groups| ==> groups[i] != []
    ensures PlaceLeaves(groups) == Placed(Packed(groups, LeafBytes), Number(FirstKeys(groups, RecordKey), 0))
  {
    hide Number, FirstKeys;
    assert [] + Packed(groups, LeafBytes) == Packed(groups, LeafBytes);
  }

  lemma VisitsOfLeaves(t: Bth, hids: seq<nat>)
    requires t.WellFormed()
    ensures Visits(t, hids, 0) == hids
  {
  }

  lemma SizedKeys(pairs: seq<Record>, keySize: nat, entrySize: nat)
    requires Sized(pairs, keySize, entrySize)
    ensures forall x :: x in pairs ==> |RecordKey(x)| == keySize
  {
  }

  lemma PointingKeys(refs: seq<Pointer>, keySize: nat)
    requires Pointing(refs, keySize)
    ensures forall x :: x in refs ==> |PointerKey(x)| == keySize
  {
  }

  lemma LevelPointing<T>(groups: seq<seq<T>>, key: T -> bytes, keySize: nat, n: nat)
    requires forall x :: x in JoinGroups(groups) ==> |key(x)| == keySize
    requires n + |groups| + 2 < U16 && forall i :: 0 <= i < |groups| ==> groups[i] != []
    ensures var refs := Number(FirstKeys(groups, key), n);
            ChildrenOf(refs) == Hids(n, |groups|) && Pointing(refs, keySize)
  {
    hide Pointing, JoinGroups, Hids, ChildrenOf, Number;
    FirstKeysSized(groups, key, keySize);
    NumberAt(FirstKeys(groups, key), n);
    NumberPointing(FirstKeys(groups, key), n, keySize);
  }

  lemma NothingCovered()
    ensures Covers([], 0)
  {
  }

  lemma FirstKeysSized<T>(groups: seq<seq<T>>, key: T -> bytes, keySize: nat)
    requires forall x :: x in JoinGroups(groups) ==> |key(x)| == keySize
    requires forall i :: 0 <= i < |groups| ==> groups[i] != []
    ensures forall i :: 0 <= i < |groups| ==> |FirstKeys(groups, key)[i]| == keySize
  {
    hide JoinGroups;
    forall i | 0 <= i < |groups|
      ensures |FirstKeys(groups, key)[i]| == keySize
    {
      GroupMembers(groups, i, groups[i][0]);
    }
  }

  lemma NumberPointing(keys: seq<bytes>, n: nat, keySize: nat)
    requires (forall i :: 0 <= i < |keys| ==> |keys[i]| == keySize) && n + |keys| + 2 < U16
    ensures Pointing(Number(keys, n), keySize)
  {
    hide HeapId, Number, ChildrenOf, Hids, PageHid;
    var refs := Number(keys, n);
    NumberAt(keys, n);
    forall p | p in refs
      ensures |p.key| == keySize && HeapId(p.child).Ok?
    {
      var i :| 0 <= i < |refs| && refs[i] == p;
      PageHidValid(n + i);
    }
  }

  lemma IndexItemsRead(t: Bth, pages: seq<bytes>, groups: seq<seq<Pointer>>)
    requires t.WellFormed() && Holds(t, pages + Packed(groups, IndexBytes))
    requires Pointing(JoinGroups(groups), t.keySize) && forall i :: 0 <= i < |groups| ==> groups[i] != []
    ensures PagesAt(IndexReader(t), groups, |pages|)
  {
    forall i: nat | i < |groups|
      ensures IndexPage(t, PageHid(|pages| + i)) == Ok(groups[i])
    {
      IndexItemReads(t, pages, groups, i);
    }
  }

  lemma IndexItemReads(t: Bth, pages: seq<bytes>, groups: seq<seq<Pointer>>, i: nat)
    requires t.WellFormed() && Holds(t, pages + Packed(groups, IndexBytes))
    requires Pointing(JoinGroups(groups), t.keySize) && i < |groups| && groups[i] != []
    ensures IndexPage(t, PageHid(|pages| + i)) == Ok(groups[i])
  {
    hide Holds, Item, IndexPage, PageHid, IndexBytes, JoinGroups, HeapId, Pointing;
    var all, n := pages + Packed(groups, IndexBytes), |pages| + i;
    GroupPointing(groups, i, t.keySize);
    IndexNotEmpty(groups[i]);
    assert all[n] == IndexBytes(groups[i]);
    HeldAt(t, all, n);
    IndexPageReads(t, PageHid(n), groups[i]);
  }

  lemma HeldAt(t: Bth, pages: seq<bytes>, n: nat)
    requires Holds(t, pages) && n < |pages| && pages[n] != []
    ensures Item(t.blocks, PageHid(n)) == Ok(pages[n])
  {
  }

  lemma GroupPointing(groups: seq<seq<Pointer>>, i: nat, keySize: nat)
    requires Pointing(JoinGroups(groups), keySize) && i < |groups|
    ensures Pointing(groups[i], keySize)
  {
    hide HeapId, JoinGroups;
    forall p | p in groups[i]
      ensures |p.key| == keySize && HeapId(p.child).Ok?
    {
      GroupMembers(groups, i, p);
    }
  }

  lemma CoversMore(visits: seq<nat>, n: nat, count: nat)
    requires Covers(visits, n)
    ensures Covers(Hids(n, count) + visits, n + count)
  {
    var all := Hids(n, count) + visits;
    forall i | 0 <= i < count
      ensures PageHid(0) <= PageHid(n) <= all[i] < PageHid(n + count) && all[i] == 32 * (n + i + 2)
    {
      assert all[i] == PageHid(n + i);
    }
    forall i | count <= i < |all|
      ensures PageHid(0) <= all[i] < PageHid(n)
    {
      assert all[i] == visits[i - count] && visits[i - count] in visits;
    }
    forall i, j | count <= i < j < |all|
      ensures all[i] != all[j]
    {
      assert visits[i - count] != visits[j - count];
    }
  }

  lemma LevelBelow(t: Bth, groups: seq<seq<Pointer>>, n: nat, k: nat)
    requires t.WellFormed() && PagesAt(IndexReader(t), groups, n) && Readable(t, ChildrenOf(JoinGroups(groups)), k)
    ensures var hids, below := Hids(n, |groups|), ChildrenOf(JoinGroups(groups));
            && Readable(t, hids, k + 1)
            && FlattenAll(t, hids, k + 1) == FlattenAll(t, below, k)
            && Visits(t, hids, k + 1) == hids + Visits(t, below, k)
  {
    hide Flatten, FlattenAll, IndexPage, PagesAt, JoinGroups, ChildrenOf, Hids, BelowAll, LeafPage;
    IndexLevel(t, groups, n);
    FlattenLevel(t, Hids(n, |groups|), k + 1);
  }

  /** One level up: the new pages read as pointers to the level below, so all that was read below is read again. */
  lemma IndexesRead(t: Bth, placed: Placed, groups: seq<seq<Pointer>>, k: nat, pairs: seq<Record>)
    requires t.WellFormed() && Reads(t, placed, k, pairs)
    requires groups != [] && JoinGroups(groups) == placed.refs && forall i :: 0 <= i < |groups| ==> groups[i] != []
    requires Holds(t, PlaceIndexes(placed.pages, groups).pages) && |placed.pages| + |groups| + 2 < U16
    ensures Reads(t, PlaceIndexes(placed.pages, groups), k + 1, pairs)
  {
    hide FlattenAll, Covers, Holds, PagesAt, Pointing, JoinGroups, Readable, Visits, ChildrenOf, Hids, Number;
    hide FirstKeys;
    var n := |placed.pages|;
    IndexItemsRead(t, placed.pages, groups);
    PointingKeys(placed.refs, t.keySize);
    LevelPointing(groups, PointerKey, t.keySize, n);
    LevelBelow(t, groups, n, k);
    CoversMore(Visits(t, ChildrenOf(placed.refs), k), n, |groups|);
  }

  lemma IndexGroupsJoin(refs: seq<Pointer>, k: nat, fanout: nat)
    requires refs != [] && fanout > 0
    ensures JoinGroups(IndexGroups(refs, k, fanout)) == refs
  {
    ChunksJoin(refs, fanout);
    JoinOne(refs);
  }

  /** Placing more levels only appends pages. */
  lemma {:induction false} PlacedPrefix(placed: Placed, k: nat, fanout: nat)
    requires placed.refs != [] && (k > 0 ==> fanout > 0)
    ensures placed.pages <= PlaceLevels(placed, k, fanout).pages
    decreases k
  {
    if k > 0 {
      PlacedPrefix(PlaceIndexes(placed.pages, IndexGroups(placed.refs, k, fanout)), k - 1, fanout);
    }
  }

  lemma HoldsPrefix(t: Bth, pages: seq<bytes>, all: seq<bytes>)
    requires Holds(t, all) && pages <= all
    ensures Holds(t, pages)
  {
  }

  lemma {:induction false} LevelsRead(t: Bth, placed: Placed, k: nat, more: nat, fanout: nat, pairs: seq<Record>)
    requires t.WellFormed() && Reads(t, placed, k, pairs) && (more > 0 ==> fanout > 0)
    requires Holds(t, PlaceLevels(placed, more, fanout).pages)
    requires |PlaceLevels(placed, more, fanout).pages| + 2 < U16
    ensures Reads(t, PlaceLevels(placed, more, fanout), k + more, pairs)
    ensures more > 0 ==> |PlaceLevels(placed, more, fanout).refs| == 1
    decreases more
  {
    hide Readable, FlattenAll, Covers, Pointing, Visits, ChildrenOf, Holds, Chunks, Number, JoinGroups;
    if more > 0 {
      var groups := IndexGroups(placed.refs, more, fanout);
      var next := PlaceIndexes(placed.pages, groups);
      IndexGroupsJoin(placed.refs, more, fanout);
      PlacedPrefix(next, more - 1, fanout);
      HoldsPrefix(t, next.pages, PlaceLevels(placed, more, fanout).pages);
      IndexesRead(t, placed, groups, k, pairs);
      LevelsRead(t, next, k + 1, more - 1, fanout, pairs);
    }
  }

  // --- the whole heap ----------------------------------------------------------------------------------

  /** The tree the reader opens over a heap built from `pairs`. */
  function BuiltTree(block: bytes, limits: Limits, keySize: nat, entrySize: nat, levels: nat, root: nat): Bth {
    Bth([block], limits, keySize, entrySize, levels, root)
  }

  lemma HeaderHeads(client: byte)
    requires client in CLIENT_TYPES
    ensures UnpackHeader(HeaderBytes(client, 32)) == Ok(HeapHeader(0, client, 32))
  {
    hide LE, FromLE, Pow256;
    var b := HeaderBytes(client, 32);
    assert b[2..3] == [HEAP_SIGNATURE] && b[3..4] == [client];
    assert b[4..8] == LE(32, 4) && b[0..2] == LE(0, 2);
    FieldWidths();
    FromLEofLE(32, 4);
    FromLEofLE(0, 2);
    OneByte(HEAP_SIGNATURE);
    OneByte(client);
  }

  lemma OneByte(b: byte)
    ensures FromLE([b]) == b
  {
    assert [b][1..] == [];
  }

  /** The tree header reads back, if the reader allows its sizes and its levels. */
  lemma TreeHeaderReads(blocks: seq<bytes>, limits: Limits, keySize: nat, entrySize: nat, levels: nat, root: nat)
    requires TreeHeaderBytes(keySize, entrySize, levels, root).Ok? && HeapId(root).Ok?
    requires KeySize(keySize) && 1 <= entrySize <= 32 && levels <= limits.maxHeapTreeDepth
    ensures HeaderOf(blocks, limits, TreeHeaderBytes(keySize, entrySize, levels, root).value)
         == Ok(Bth(blocks, limits, keySize, entrySize, levels, root))
  {
    var item := TreeHeaderBytes(keySize, entrySize, levels, root).value;
    assert item[0..1] == [TREE_TYPE] && item[1..2] == [keySize] && item[2..3] == [entrySize] && item[3..4] == [levels];
    assert item[4..8] == LE(root, 4);
    OneByte(TREE_TYPE);
    OneByte(keySize);
    OneByte(entrySize);
    OneByte(levels);
    FieldWidths();
    FromLEofLE(root, 4);
    hide LE, FromLE;
  }

  /** Every item of a built heap whose index fits an id is read back. */
  lemma ItemsHeld(t: Bth, items: seq<bytes>, client: byte)
    requires client in CLIENT_TYPES && items != [] && |items| <= MAX_ITEM_INDEX
    requires |t.blocks| == 1 && Block(HeaderBytes(client, 32), items, 0) == Ok(t.blocks[0])
    ensures Holds(t, items[1..])
    ensures items[0] != [] ==> Item(t.blocks, 32) == Ok(items[0])
  {
    hide Block, Item, UnpackHeader;
    HeaderHeads(client);
    forall n: nat | n < |items[1..]| && items[1..][n] != []
      ensures Item(t.blocks, PageHid(n)) == Ok(items[1..][n])
    {
      BlockReads(t.blocks, 0, HeaderBytes(client, 32), items, 0, n + 2);
    }
    BlockReads(t.blocks, 0, HeaderBytes(client, 32), items, 0, 1);
  }

  // --- the root ------------------------------------------------------------------------------------

  lemma {:induction false} RootIsLast(placed: Placed, k: nat, fanout: nat)
    requires placed.refs != [] && (k > 0 ==> fanout > 0)
    requires k == 0 ==> |placed.refs| == 1 && |placed.pages| > 0 && placed.refs[0].child == PageHid(|placed.pages| - 1)
    ensures var p := PlaceLevels(placed, k, fanout);
            |p.refs| == 1 && |p.pages| > 0 && p.refs[0].child == PageHid(|p.pages| - 1)
    decreases k
  {
    hide Chunks, LE;
    if k > 0 {
      RootIsLast(PlaceIndexes(placed.pages, IndexGroups(placed.refs, k, fanout)), k - 1, fanout);
    }
  }

  /** The root is the last page placed. */
  lemma RootHid(pairs: seq<Record>, levels: nat, fanout: nat)
    requires pairs != [] && (levels > 0 ==> fanout > 0)
    ensures var p := Pages(pairs, levels, fanout);
            |p.refs| == 1 && |p.pages| > 0 && p.refs[0].child == PageHid(|p.pages| - 1)
  {
    hide Chunks, LeafBytes;
    RootIsLast(PlaceLeaves(LeafGroups(pairs, levels, fanout)), levels, fanout);
  }

  lemma PagesRead(t: Bth, pairs: seq<Record>, levels: nat, fanout: nat)
    requires t.WellFormed() && pairs != [] && Sized(pairs, t.keySize, t.entrySize) && (levels > 0 ==> fanout > 0)
    requires Holds(t, Pages(pairs, levels, fanout).pages) && |Pages(pairs, levels, fanout).pages| + 2 < U16
    ensures Reads(t, Pages(pairs, levels, fanout), levels, pairs)
  {
    hide Reads, Holds, Sized, Chunks, PlaceLevels;
    var groups := LeafGroups(pairs, levels, fanout);
    var leaves := PlaceLeaves(groups);
    LeafGroupsJoin(pairs, levels, fanout);
    PlacedPrefix(leaves, levels, fanout);
    HoldsPrefix(t, leaves.pages, Pages(pairs, levels, fanout).pages);
    LeavesRead(t, groups);
    LevelsRead(t, leaves, 0, levels, fanout, pairs);
  }

  lemma LeafGroupsJoin(pairs: seq<Record>, levels: nat, fanout: nat)
    requires pairs != [] && (levels > 0 ==> fanout > 0)
    ensures JoinGroups(LeafGroups(pairs, levels, fanout)) == pairs
  {
    if levels > 0 {
      ChunksJoin(pairs, fanout);
    } else {
      JoinOne(pairs);
    }
  }

  /** The listing of a built tree whose ids all name its one block: everything, exactly when the ceilings allow it. */
  lemma BuiltListed(t: Bth, pairs: seq<Record>, fanout: nat)
    requires t.WellFormed() && pairs != [] && Sized(pairs, t.keySize, t.entrySize) && (t.levels > 0 ==> fanout > 0)
    requires Holds(t, Pages(pairs, t.levels, fanout).pages) && |Pages(pairs, t.levels, fanout).pages| + 2 < U16
    requires t.root == Pages(pairs, t.levels, fanout).refs[0].child
    ensures t.root != 0
    ensures Entries(t).error.None?
            <==> |Pages(pairs, t.levels, fanout).pages| <= t.limits.maxItems && |pairs| <= t.limits.maxItems
    ensures Entries(t).error.None? ==> Entries(t).emitted == pairs
  {
    hide Pages, Sized, Holds, Entries, Readable, FlattenAll, HeapOrder.Flatten, Pointing, PageHid;
    var p, root := Pages(pairs, t.levels, fanout), [t.root];
    PagesRead(t, pairs, t.levels, fanout);
    RootHid(pairs, t.levels, fanout);
    assert ChildrenOf(p.refs) == root;
    FlattenOne(t, t.root, t.levels);
    CoversAdmits(t, root, t.levels, |p.pages|);
    EntriesIff(t);
  }

  lemma CoversAdmits(t: Bth, hids: seq<nat>, k: nat, n: nat)
    requires t.WellFormed() && hids != [] && Covers(Visits(t, hids, k), n)
    ensures Traversal.Admits(t.limits.maxItems, {}, Visits(t, hids, k)) <==> n <= t.limits.maxItems
    ensures hids[0] > 0
  {
    assert hids <= Visits(t, hids, k);
    assert hids[0] == Visits(t, hids, k)[0];
    assert hids[0] in Visits(t, hids, k);
  }

  /** With more items than an index can name, the root's id names a block the heap does not have. */
  lemma TooManyItems(t: Bth, items: nat)
    requires t.WellFormed() && |t.blocks| == 1 && items > MAX_ITEM_INDEX && t.root == 32 * items
    ensures Entries(t).error.Some?
  {
    assert BlockIndex(t.root) >= 1;
    assert Item(t.blocks, t.root) == Err(Format);
    hide Item;
    assert t.root in [t.root];
    assert !Readable(t, [t.root], t.levels);
    EntriesIff(t);
  }

  /**
   A heap built over `pairs`, for every fanout and every number of levels the reader allows, opens as the tree it
   was built as; listing it gives back exactly `pairs`, in order, if and only if its items fit 11-bit indices and
   the ceilings on pages and records hold.
   */
  lemma TreeHeapReads(
      pairs: seq<Record>, keySize: nat, entrySize: nat, levels: nat, fanout: nat, client: byte, limits: Limits)
    requires TreeHeap(pairs, keySize, entrySize, levels, fanout, client).Ok? && client in CLIENT_TYPES
    requires KeySize(keySize) && 1 <= entrySize <= 32 && levels <= limits.maxHeapTreeDepth
    requires Sized(pairs, keySize, entrySize)
    ensures var block := TreeHeap(pairs, keySize, entrySize, levels, fanout, client).value;
            var items := TreeItems(pairs, keySize, entrySize, levels, fanout).value;
            && UnpackHeader(block).Ok? && UnpackHeader(block).value.userRoot == 32
            && TreeAt([block], limits, 32).Ok?
            && var o := Entries(TreeAt([block], limits, 32).value);
               && (o.error.None? <==> pairs == []
                                      || (|items| <= MAX_ITEM_INDEX && |items| - 1 <= limits.maxItems
                                          && |pairs| <= limits.maxItems))
               && (o.error.None? ==> o.emitted == pairs)
  {
    hide Block, Entries, Pages, Sized, Holds, UnpackHeader, TreeHeaderBytes, HeaderOf, Item;
    var block := TreeHeap(pairs, keySize, entrySize, levels, fanout, client).value;
    var items := TreeItems(pairs, keySize, entrySize, levels, fanout).value;
    var t := TreeOpens(pairs, keySize, entrySize, levels, fanout, client, limits);
    if pairs == [] {
      NothingListed(t);
    } else if |items| <= MAX_ITEM_INDEX {
      ItemsHeld(t, items, client);
      ItemsArePages(pairs, keySize, entrySize, levels, fanout);
      BuiltListed(t, pairs, fanout);
    } else {
      TooManyItems(t, |items|);
    }
  }

  lemma ItemsArePages(pairs: seq<Record>, keySize: nat, entrySize: nat, levels: nat, fanout: nat)
    requires pairs != [] && TreeItems(pairs, keySize, entrySize, levels, fanout).Ok?
    ensures levels > 0 ==> fanout > 0
    ensures var items := TreeItems(pairs, keySize, entrySize, levels, fanout).value;
            items != [] && items[1..] == Pages(pairs, levels, fanout).pages
  {
    hide Pages, TreeHeaderBytes;
  }

  lemma NothingListed(t: Bth)
    requires t.WellFormed() && t.root == 0
    ensures Entries(t) == Traversal.Outcome([], None)
  {
  }

  lemma TreeOpens(
      pairs: seq<Record>, keySize: nat, entrySize: nat, levels: nat, fanout: nat, client: byte, limits: Limits)
    returns (t: Bth)
    requires TreeHeap(pairs, keySize, entrySize, levels, fanout, client).Ok? && client in CLIENT_TYPES
    requires KeySize(keySize) && 1 <= entrySize <= 32 && levels <= limits.maxHeapTreeDepth
    ensures var block := TreeHeap(pairs, keySize, entrySize, levels, fanout, client).value;
            var items := TreeItems(pairs, keySize, entrySize, levels, fanout).value;
            && UnpackHeader(block).Ok? && UnpackHeader(block).value.userRoot == 32
            && TreeAt([block], limits, 32) == Ok(t)
            && items != [] && |items| < U16
            && t == BuiltTree(block, limits, keySize, entrySize, levels, if pairs == [] then 0 else 32 * |items|)
            && (pairs != [] ==> 32 * |items| == Pages(pairs, levels, fanout).refs[0].child)
  {
    hide Block, Pages, UnpackHeader, HeaderOf, Item, TreeHeaderBytes;
    var block := TreeHeap(pairs, keySize, entrySize, levels, fanout, client).value;
    var items := TreeItems(pairs, keySize, entrySize, levels, fanout).value;
    var root := if pairs == [] then 0 else Pages(pairs, levels, fanout).refs[0].child;
    if pairs != [] {
      RootHid(pairs, levels, fanout);
    }
    t := BuiltTree(block, limits, keySize, entrySize, levels, root);
    assert pairs != [] ==> root == 32 * |items|;
    assert TreeHeaderBytes(keySize, entrySize, levels, root) == Ok(items[0]);
    HeaderNotEmpty(keySize, entrySize, levels, root);
    BlockHeader(block, items, client);
    HeaderHeads(client);
    assert Heads(0, HeaderBytes(client, 32));
    BlockReads([block], 0, HeaderBytes(client, 32), items, 0, 1);
    TreeHeaderReads([block], limits, keySize, entrySize, levels, root);
  }

  lemma HeaderNotEmpty(keySize: nat, entrySize: nat, levels: nat, root: nat)
    requires TreeHeaderBytes(keySize, entrySize, levels, root).Ok?
    ensures TreeHeaderBytes(keySize, entrySize, levels, root).value != []
  {
  }

  lemma BlockHeader(block: bytes, items: seq<bytes>, client: byte)
    requires client in CLIENT_TYPES && Block(HeaderBytes(client, 32), items, 0) == Ok(block)
    ensures UnpackHeader(block).Ok? && UnpackHeader(block).value.userRoot == 32
    ensures |items| < U16
  {
    hide UnpackHeader, Join;
    var head := HeaderBytes(client, 32);
    HeaderHeads(client);
    BlockParts(head, items, 0);
    HeaderKept(head, block, |head| + |Join(items)|);
  }
}
