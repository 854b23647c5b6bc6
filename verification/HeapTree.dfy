/**
 The BTree-on-heap ([MS-PST] section 2.3.2): a sorted index whose pages are heap items. The walk goes level by
 level, the lookup down one path.
 */
module HeapTree {
  import opened Wire
  import opened Limits
  import opened Traversal
  import opened Heap

  const HEADER_SIZE := 8
  const HID_SIZE := 4

  predicate KeySize(n: nat) {
    n == 2 || n == 4 || n == 8 || n == 16
  }

  /** A tree over the blocks of a heap; `root` is 0 for an empty one. */
  datatype Bth = Bth(blocks: seq<bytes>, limits: Limits, keySize: nat, entrySize: nat, levels: nat, root: nat)
  {
    predicate WellFormed() {
      KeySize(keySize) && 1 <= entrySize <= 32
    }

    function IndexStride(): (n: nat)
      ensures n > 0
    {
      keySize + HID_SIZE
    }

    function LeafStride(): nat {
      keySize + entrySize
    }
  }

  /** The tree whose header is the heap item `hid`. */
  function TreeAt(blocks: seq<bytes>, limits: Limits, hid: nat): (r: Result<Bth>)
    ensures r.Ok? ==> r.value.WellFormed() && r.value.blocks == blocks && r.value.limits == limits
  {
    var item :- Item(blocks, hid);
    HeaderOf(blocks, limits, item)
  }

  /** BTHHEADER: type, key and entry sizes, index levels within the ceiling, a root without type bits. */
  function HeaderOf(blocks: seq<bytes>, limits: Limits, item: bytes): (r: Result<Bth>)
    ensures r.Ok? ==> r.value.WellFormed() && r.value.blocks == blocks && r.value.limits == limits
  {
    var btype :- Field(item, 0, 1);
    var keySize :- Field(item, 1, 1);
    var entrySize :- Field(item, 2, 1);
    var levels :- Field(item, 3, 1);
    var raw :- Field(item, 4, 4);
    if btype != TREE_TYPE || !KeySize(keySize) || !(1 <= entrySize <= 32) then Err(Format)
    else
      var root :- HeapId(raw);
      if levels > limits.maxHeapTreeDepth then Err(Limit)
      else Ok(Bth(blocks, limits, keySize, entrySize, levels, root))
  }

  // --- pages ----------------------------------------------------------------------------------

  datatype Record = Record(key: bytes, value: bytes)
  datatype Pointer = Pointer(key: bytes, child: nat)

  /** The item as a whole number of records. */
  function Page(t: Bth, hid: nat, stride: nat): Result<bytes>
    requires stride > 0
  {
    var page :- Item(t.blocks, hid);
    if |page| % stride != 0 then Err(Format) else Ok(page)
  }

  function LeafRecords(page: bytes, keySize: nat, stride: nat): seq<Record>
    requires 0 < keySize < stride
    decreases |page|
  {
    if |page| < stride then []
    else [Record(page[..keySize], page[keySize..stride])] + LeafRecords(page[stride..], keySize, stride)
  }

  function IndexRecords(page: bytes, keySize: nat): Result<seq<Pointer>>
    decreases |page|
  {
    if |page| < keySize + HID_SIZE then Ok([])
    else
      var child :- HeapId(FromLE(page[keySize..keySize + HID_SIZE]));
      var rest :- IndexRecords(page[keySize + HID_SIZE..], keySize);
      Ok([Pointer(page[..keySize], child)] + rest)
  }

  function IndexPage(t: Bth, hid: nat): Result<seq<Pointer>>
    requires t.WellFormed()
  {
    var page :- Page(t, hid, t.IndexStride());
    IndexRecords(page, t.keySize)
  }

  function LeafPage(t: Bth, hid: nat): Result<seq<Record>>
    requires t.WellFormed()
  {
    var page :- Page(t, hid, t.LeafStride());
    Ok(LeafRecords(page, t.keySize, t.LeafStride()))
  }

  function ChildrenOf(pointers: seq<Pointer>): (hids: seq<nat>)
    ensures |hids| == |pointers|
  {
    if pointers == [] then [] else [pointers[0].child] + ChildrenOf(pointers[1..])
  }

  // --- the level-by-level walk ----------------------------------------------------------------

  predicate Full(t: Bth, hid: nat, seen: set<nat>) {
    hid in seen || |seen| >= t.limits.maxItems
  }

  /** The pages of the next level, in order, and the pages seen by then. */
  function NextLevel(t: Bth, pages: seq<nat>, seen: set<nat>): (Result<seq<nat>>, set<nat>)
    requires t.WellFormed()
    decreases |pages|
  {
    if pages == [] then (Ok([]), seen)
    else if Full(t, pages[0], seen) then (Err(Limit), seen)
    else
      var pointers := IndexPage(t, pages[0]);
      if pointers.Err? then (Err(pointers.error), seen + {pages[0]})
      else
        var rest := NextLevel(t, pages[1..], seen + {pages[0]});
        if rest.0.Err? then rest else (Ok(ChildrenOf(pointers.value) + rest.0.value), rest.1)
  }

  /** The leaf pages `levels` below `pages`. */
  function Descend(t: Bth, pages: seq<nat>, levels: nat, seen: set<nat>): (Result<seq<nat>>, set<nat>)
    requires t.WellFormed()
    decreases levels
  {
    if levels == 0 then (Ok(pages), seen)
    else
      var next := NextLevel(t, pages, seen);
      if next.0.Err? then next
      else if |next.0.value| > t.limits.maxItems then (Err(Limit), next.1)
      else Descend(t, next.0.value, levels - 1, next.1)
  }

  /** The records of the leaf pages, counted before they are yielded. */
  function Leaves(t: Bth, pages: seq<nat>, seen: set<nat>, count: nat): Outcome<Record>
    requires t.WellFormed()
    decreases |pages|
  {
    if pages == [] then Outcome([], None)
    else if Full(t, pages[0], seen) then Outcome([], Some(Limit))
    else
      var records := LeafPage(t, pages[0]);
      if records.Err? then Outcome([], Some(records.error))
      else if count + |records.value| > t.limits.maxItems then Outcome([], Some(Limit))
      else
        var rest := Leaves(t, pages[1..], seen + {pages[0]}, count + |records.value|);
        Outcome(records.value + rest.emitted, rest.error)
  }

  /** What the first page of the last level does to the listing. */
  lemma LeavesHead(t: Bth, pages: seq<nat>, seen: set<nat>, count: nat)
    requires t.WellFormed() && pages != []
    ensures Full(t, pages[0], seen) <==> pages[0] in seen || |seen| >= t.limits.maxItems
    ensures Leaves(t, pages, seen, count)
         == if Full(t, pages[0], seen) then Outcome([], Some(Limit))
            else if LeafPage(t, pages[0]).Err? then Outcome([], Some(LeafPage(t, pages[0]).error))
            else if count + |LeafPage(t, pages[0]).value| > t.limits.maxItems then Outcome([], Some(Limit))
            else
              var rest := Leaves(t, pages[1..], seen + {pages[0]}, count + |LeafPage(t, pages[0]).value|);
              Outcome(LeafPage(t, pages[0]).value + rest.emitted, rest.error)
  {
    hide LeafPage;
  }

  lemma NothingToList(t: Bth, seen: set<nat>, count: nat)
    requires t.WellFormed()
    ensures Leaves(t, [], seen, count) == Outcome([], None)
  {
  }

  function Entries(t: Bth): Outcome<Record>
    requires t.WellFormed()
  {
    if t.root == 0 then Outcome([], None)
    else
      var (pages, seen) := Descend(t, [t.root], t.levels, {});
      if pages.Err? then Outcome([], Some(pages.error)) else Leaves(t, pages.value, seen, 0)
  }

  // --- the one-path descent -----------------------------------------------------------------------

  /** The child of the last record, before the first whose key is greater, if there is one. */
  function Choose(pointers: seq<Pointer>, target: nat, chosen: Option<nat>): Option<nat>
    decreases |pointers|
  {
    if pointers == [] || FromLE(pointers[0].key) > target then chosen
    else Choose(pointers[1..], target, Some(pointers[0].child))
  }

  function ValueFor(records: seq<Record>, key: bytes): (r: Option<bytes>)
    ensures r.None? <==> forall i :: 0 <= i < |records| ==> records[i].key != key
    ensures r.Some? ==> exists i :: 0 <= i < |records| && records[i] == Record(key, r.value)
  {
    if records == [] then None
    else if records[0].key == key then Some(records[0].value)
    else ValueFor(records[1..], key)
  }

  function FindFrom(t: Bth, hid: nat, levels: nat, seen: set<nat>, key: bytes): Result<Option<bytes>>
    requires t.WellFormed()
    decreases levels
  {
    if Full(t, hid, seen) then Err(Limit)
    else if levels == 0 then
      var records :- LeafPage(t, hid);
      Ok(ValueFor(records, key))
    else
      var pointers :- IndexPage(t, hid);
      match Choose(pointers, FromLE(key), None)
      case None => Ok(None)
      case Some(child) => FindFrom(t, child, levels - 1, seen + {hid}, key)
  }

  function Find(t: Bth, key: bytes): Result<Option<bytes>>
    requires t.WellFormed()
  {
    if |key| != t.keySize then Err(Format)
    else if t.root == 0 then Ok(None)
    else FindFrom(t, t.root, t.levels, {}, key)
  }

  /** One page of the descent. */
  lemma FindFromOnce(t: Bth, hid: nat, levels: nat, seen: set<nat>, key: bytes)
    requires t.WellFormed()
    ensures FindFrom(t, hid, levels, seen, key)
         == if Full(t, hid, seen) then Err(Limit)
            else if levels == 0 then
              if LeafPage(t, hid).Err? then Err(LeafPage(t, hid).error) else Ok(ValueFor(LeafPage(t, hid).value, key))
            else if IndexPage(t, hid).Err? then Err(IndexPage(t, hid).error)
            else
              var chosen := Choose(IndexPage(t, hid).value, FromLE(key), None);
              if chosen.None? then Ok(None) else FindFrom(t, chosen.value, levels - 1, seen + {hid}, key)
  {
    hide LeafPage, IndexPage, ValueFor, Choose, Full, FromLE;
  }

  // --- the reader ------------------------------------------------------------------------------------

  class Reader {
    const heap: HeapNode
    const keySize: nat
    const entrySize: nat
    const levels: nat
    const root: nat

    ghost function Model(): Bth {
      Bth(heap.blocks, heap.limits, keySize, entrySize, levels, root)
    }

    ghost predicate Valid()
      reads heap
    {
      heap.Valid() && Model().WellFormed()
    }

    /** The heap's allocations stay within their ceiling; if not, any read may be refused, depending on those before. */
    ghost predicate InBudget() {
      Fits(heap.blocks, heap.limits)
    }

    constructor (heap: HeapNode, t: Bth)
      requires heap.Valid() && t.WellFormed() && t.blocks == heap.blocks && t.limits == heap.limits
      ensures Valid() && Model() == t && this.heap == heap
    {
      this.heap := heap;
      keySize := t.keySize;
      entrySize := t.entrySize;
      levels := t.levels;
      root := t.root;
    }

    /** The tree at an item of the heap, by default the heap's user root. */
    static method Open(heap: HeapNode, item: Option<nat>) returns (r: Result<Reader>)
      requires heap.Valid()
      modifies heap`pageMaps, heap`itemsSeen
      ensures heap.Valid()
      ensures r.Ok? ==> fresh(r.value) && r.value.Valid() && r.value.heap == heap
      ensures var t := TreeAt(heap.blocks, heap.limits, if item.Some? then item.value else heap.header.userRoot);
              || (r == Err(Limit) && !Fits(heap.blocks, heap.limits))
              || (if t.Ok? then r.Ok? && r.value.Model() == t.value else r.Err? && r.error == t.error)
    {
      var hid := if item.Some? then item.value else heap.header.userRoot;
      var got := heap.Get(hid);
      if got.Err? {
        return Err(got.error);
      }
      var t := HeaderOf(heap.blocks, heap.limits, got.value);
      if t.Err? {
        return Err(t.error);
      }
      var reader := new Reader(heap, t.value);
      return Ok(reader);
    }

    method PageOf(hid: nat, stride: nat, visited: VisitedSet) returns (r: Result<bytes>)
      requires Valid() && stride > 0 && visited.ceiling == heap.limits.maxItems
      modifies heap`pageMaps, heap`itemsSeen, visited
      ensures Valid()
      ensures visited.seen == if Full(Model(), hid, old(visited.seen)) then old(visited.seen) else old(visited.seen) + {hid}
      ensures || (r == Err(Limit) && !InBudget())
              || r == if Full(Model(), hid, old(visited.seen)) then Err(Limit) else Page(Model(), hid, stride)
    {
      hide HeapNode.Valid, Item;
      var ok := visited.Add(hid);
      if !ok {
        return Err(Limit);
      }
      r := heap.Get(hid);
      if r.Ok? && |r.value| % stride != 0 {
        return Err(Format);
      }
    }

    /** The pages of one level in order; their children become the next level. */
    method ReadLevel(pages: seq<nat>, visited: VisitedSet) returns (r: Result<seq<nat>>)
      requires Valid() && visited.ceiling == heap.limits.maxItems
      modifies heap`pageMaps, heap`itemsSeen, visited
      ensures Valid()
      ensures r == NextLevel(Model(), pages, old(visited.seen)).0 || (r == Err(Limit) && !InBudget())
      ensures r.Ok? ==> visited.seen == NextLevel(Model(), pages, old(visited.seen)).1
    {
      hide HeapNode.Valid, Page, IndexRecords;
      var next: seq<nat> := [];
      ghost var t, goal := Model(), NextLevel(Model(), pages, visited.seen);
      assert pages[0..] == pages;
      assert goal.0.Ok? ==> next + goal.0.value == goal.0.value;
      for i := 0 to |pages|
        invariant Valid()
        invariant var rest := NextLevel(t, pages[i..], visited.seen);
                  goal.0 == (if rest.0.Err? then rest.0 else Ok(next + rest.0.value)) && goal.1 == rest.1
      {
        assert pages[i..][0] == pages[i] && pages[i..][1..] == pages[i + 1..];
        var page := PageOf(pages[i], keySize + HID_SIZE, visited);
        if page.Err? {
          return Err(page.error);
        }
        var pointers := IndexRecords(page.value, keySize);
        if pointers.Err? {
          return Err(pointers.error);
        }
        ghost var rest := NextLevel(t, pages[i + 1..], visited.seen);
        if rest.0.Ok? {
          ConcatAssociates(next, ChildrenOf(pointers.value), rest.0.value);
        }
        next := next + ChildrenOf(pointers.value);
      }
      assert next + [] == next;
      return Ok(next);
    }

    /** Every record in the tree's order, level by level from the root. */
    method ReadEntries() returns (o: Outcome<Record>)
      requires Valid()
      modifies heap`pageMaps, heap`itemsSeen
      ensures Valid()
      ensures || o == Entries(Model())
              || (!InBudget() && o.error == Some(Limit) && o.emitted <= Entries(Model()).emitted)
    {
      hide HeapNode.Valid, Page, LeafRecords, NextLevel;
      if root == 0 {
        return Outcome([], None);
      }
      var visited := new VisitedSet(heap.limits.maxItems);
      var pages := [root];
      ghost var t := Model();
      for level := 0 to levels
        invariant Valid() && fresh(visited) && visited.ceiling == heap.limits.maxItems
        invariant Descend(t, pages, levels - level, visited.seen) == Descend(t, [root], levels, {})
      {
        var next := ReadLevel(pages, visited);
        if next.Err? {
          return Outcome([], Some(next.error));
        }
        if |next.value| > heap.limits.maxItems {
          return Outcome([], Some(Limit));
        }
        pages := next.value;
      }
      o := ReadLeaves(pages, visited);
    }

    method ReadLeaves(pages: seq<nat>, visited: VisitedSet) returns (o: Outcome<Record>)
      requires Valid() && visited.ceiling == heap.limits.maxItems
      modifies heap`pageMaps, heap`itemsSeen, visited
      ensures Valid()
      ensures var goal := Leaves(Model(), pages, old(visited.seen), 0);
              o == goal || (!InBudget() && o.error == Some(Limit) && o.emitted <= goal.emitted)
    {
      hide HeapNode.Valid, Page, LeafRecords, Leaves, Full;
      var found: seq<Record>, count: nat := [], 0;
      ghost var t, goal := Model(), Leaves(Model(), pages, visited.seen, 0);
      assert pages[0..] == pages;
      assert found + goal.emitted == goal.emitted;
      for i := 0 to |pages|
        invariant Valid()
        invariant var rest := Leaves(t, pages[i..], visited.seen, count);
                  goal == Outcome(found + rest.emitted, rest.error)
      {
        assert pages[i..][0] == pages[i] && pages[i..][1..] == pages[i + 1..];
        assert found + [] == found;
        LeavesHead(t, pages[i..], visited.seen, count);
        var page := PageOf(pages[i], keySize + entrySize, visited);
        if page.Err? {
          return Outcome(found, Some(page.error));
        }
        var records := LeafRecords(page.value, keySize, keySize + entrySize);
        count := count + |records|;
        if count > heap.limits.maxItems {
          return Outcome(found, Some(Limit));
        }
        ghost var rest := Leaves(t, pages[i + 1..], visited.seen, count);
        ConcatAssociates(found, records, rest.emitted);
        found := found + records;
      }
      NothingToList(t, visited.seen, count);
      assert pages[|pages|..] == [];
      assert found + [] == found;
      return Outcome(found, None);
    }

    /** The value under a key: one page per level. */
    method FindValue(key: bytes) returns (r: Result<Option<bytes>>)
      requires Valid()
      modifies heap`pageMaps, heap`itemsSeen
      ensures Valid()
      ensures r == Find(Model(), key) || (r == Err(Limit) && !InBudget())
    {
      hide HeapNode.Valid, Page, LeafRecords, IndexRecords, ValueFor, Choose, FromLE, FindFrom, Full;
      if |key| != keySize {
        return Err(Format);
      }
      if root == 0 {
        return Ok(None);
      }
      var target := FromLE(key);
      var visited := new VisitedSet(heap.limits.maxItems);
      var hid := root;
      ghost var t := Model();
      for level := 0 to levels
        invariant Valid() && fresh(visited) && visited.ceiling == heap.limits.maxItems
        invariant FindFrom(t, hid, levels - level, visited.seen, key) == Find(t, key)
      {
        FindFromOnce(t, hid, levels - level, visited.seen, key);
        var page := PageOf(hid, keySize + HID_SIZE, visited);
        if page.Err? {
          return Err(page.error);
        }
        var pointers := IndexRecords(page.value, keySize);
        if pointers.Err? {
          return Err(pointers.error);
        }
        var chosen := ChooseChild(pointers.value, target);
        if chosen.None? {
          return Ok(None);
        }
        hid := chosen.value;
      }
      FindFromOnce(t, hid, 0, visited.seen, key);
      var page := PageOf(hid, keySize + entrySize, visited);
      if page.Err? {
        return Err(page.error);
      }
      r := Ok(ValueFor(LeafRecords(page.value, keySize, keySize + entrySize), key));
    }

    static method ChooseChild(pointers: seq<Pointer>, target: nat) returns (chosen: Option<nat>)
      ensures chosen == Choose(pointers, target, None)
    {
      chosen := None;
      for i := 0 to |pointers|
        invariant Choose(pointers[i..], target, chosen) == Choose(pointers, target, None)
      {
        assert pointers[i..][0] == pointers[i] && pointers[i..][1..] == pointers[i + 1..];
        if FromLE(pointers[i].key) > target {
          return;
        }
        chosen := Some(pointers[i].child);
      }
    }
  }
}
