/**
 Heap-on-node ([MS-PST] section 2.3.1): item ids, the page map of a block and the items it spans, read through a
 cache of page maps that also counts the allocations seen.
 */
module Heap {
  import opened Wire
  import opened Limits

  const HEAP_HEADER_SIZE := 12
  const HEAP_SIGNATURE := 0xEC
  const TREE_TYPE := 0xB5
  const TABLE_TYPE := 0x7C
  const CLIENT_TYPES: set<nat> := {0x6C, 0x7C, 0x8C, 0x9C, 0xA5, 0xAC, 0xB5, 0xBC, 0xCC}
  const BITMAP_HEADER_SIZE := 66
  const MAX_ITEM_INDEX := 2047

  // --- item ids --------------------------------------------------------------------------

  /** A raw id with nonzero type bits is no heap id. */
  function HeapId(raw: nat): (r: Result<nat>)
    ensures r.Ok? ==> r.value == raw
  {
    if raw < U32 && raw % 32 == 0 then Ok(raw) else Err(Format)
  }

  function ItemIndex(hid: nat): nat {
    hid / 32 % 2048
  }

  function BlockIndex(hid: nat): nat {
    hid / U16
  }

  /** `HeapId.from_parts`, and the suite's `hid`. */
  function FromParts(index: nat, block: nat): Result<nat> {
    if index <= MAX_ITEM_INDEX && block < U16 then Ok(block * U16 + index * 32) else Err(Format)
  }

  lemma PartsRoundTrip(index: nat, block: nat)
    requires index <= MAX_ITEM_INDEX && block < U16
    ensures var hid := FromParts(index, block).value;
            HeapId(hid) == Ok(hid) && ItemIndex(hid) == index && BlockIndex(hid) == block
  {
    var hid := block * U16 + index * 32;
    assert hid / U16 == block;
    assert hid == 32 * (block * 2048 + index);
    assert hid / 32 == block * 2048 + index;
    assert (block * 2048 + index) % 2048 == index;
  }

  lemma PartsComplete(raw: nat)
    requires HeapId(raw).Ok?
    ensures FromParts(ItemIndex(raw), BlockIndex(raw)) == Ok(raw)
  {
    assert raw == 32 * (raw / 32);
    assert raw / 32 == 2048 * (raw / 32 / 2048) + raw / 32 % 2048;
    assert raw / 32 / 2048 == raw / U16;
  }

  // --- the header and the page map ------------------------------------------------------------

  datatype HeapHeader = HeapHeader(pageMapOffset: nat, clientType: nat, userRoot: nat)

  function UnpackHeader(block: bytes): Result<HeapHeader> {
    if |block| < HEAP_HEADER_SIZE then Err(Format)
    else
      var pageMapOffset :- Field(block, 0, 2);
      var signature :- Field(block, 2, 1);
      var client :- Field(block, 3, 1);
      var root :- Field(block, 4, 4);
      if signature != HEAP_SIGNATURE || client !in CLIENT_TYPES then Err(Format)
      else
        var userRoot :- HeapId(root);
        Ok(HeapHeader(pageMapOffset, client, userRoot))
  }

  /** Block 8 and every 128th after it start with a fill-level bitmap. */
  predicate IsBitmapBlock(blockIndex: nat) {
    blockIndex % 128 == 8
  }

  function PageMapOffset(blockIndex: nat, block: bytes): Result<nat> {
    if blockIndex == 0 then
      var header :- UnpackHeader(block);
      Ok(header.pageMapOffset)
    else if IsBitmapBlock(blockIndex) && |block| < BITMAP_HEADER_SIZE then Err(Format)
    else Field(block, 0, 2)
  }

  /** The offsets of a block's items: item `i` is `offsets[i]..offsets[i + 1]`. */
  datatype PageMap = PageMap(offsets: seq<nat>, free: nat)
  {
    function Count(): nat
      requires offsets != []
    {
      |offsets| - 1
    }
  }

  function Shorts(block: bytes, offset: nat, count: nat): (r: Result<seq<nat>>)
    ensures r.Ok? <==> offset + 2 * count <= |block|
    ensures r.Ok? ==> |r.value| == count
    ensures r.Err? ==> r.error == Format
    ensures r.Ok? ==> forall i :: 0 <= i < count ==> r.value[i] == FromLE(block[offset + 2 * i..offset + 2 * i + 2])
  {
    if offset + 2 * count <= |block|
    then Ok(seq(count, i requires 0 <= i < count => FromLE(block[offset + 2 * i..offset + 2 * i + 2])))
    else Err(Format)
  }

  function RawPageMap(blockIndex: nat, block: bytes): (r: Result<PageMap>)
    ensures r.Ok? ==> r.value.offsets != []
  {
    var at :- PageMapOffset(blockIndex, block);
    var count :- Field(block, at, 2);
    var free :- Field(block, at + 2, 2);
    var offsets :- Shorts(block, at + 4, count + 1);
    Ok(PageMap(offsets, free))
  }

  predicate Ascends(offsets: seq<nat>) {
    forall i :: 0 < i < |offsets| ==> offsets[i - 1] <= offsets[i]
  }

  /** The freed items: zero steps between neighbouring offsets. */
  function Freed(offsets: seq<nat>): nat {
    if |offsets| <= 1 then 0
    else Freed(offsets[..|offsets| - 1]) + if offsets[|offsets| - 2] == offsets[|offsets| - 1] then 1 else 0
  }

  /** An accepted page map: ascending offsets inside the block, and `cFree` right. */
  predicate Accepts(m: PageMap, block: bytes) {
    && m.offsets != [] && Ascends(m.offsets)
    && m.offsets[|m.offsets| - 1] <= |block|
    && Freed(m.offsets) == m.free
  }

  function ParsedPageMap(blockIndex: nat, block: bytes): (r: Result<PageMap>)
    ensures r.Ok? ==> Accepts(r.value, block)
  {
    var m :- RawPageMap(blockIndex, block);
    if Accepts(m, block) then Ok(m) else Err(Format)
  }

  /** The loop over neighbouring offsets, which checks the order and counts the freed items as it goes. */
  method ParsePageMap(blockIndex: nat, block: bytes) returns (r: Result<PageMap>)
    ensures r == ParsedPageMap(blockIndex, block)
  {
    hide RawPageMap;
    var raw := RawPageMap(blockIndex, block);
    if raw.Err? {
      return raw;
    }
    var offsets := raw.value.offsets;
    var last, freed := offsets[0], 0;
    for i := 1 to |offsets|
      invariant last == offsets[i - 1]
      invariant forall j :: 0 < j < i ==> offsets[j - 1] <= offsets[j]
      invariant freed == Freed(offsets[..i])
    {
      assert offsets[..i + 1][..i] == offsets[..i];
      var offset := offsets[i];
      if offset < last {
        return Err(Format);
      }
      if offset == last {
        freed := freed + 1;
      }
      last := offset;
    }
    assert offsets[..|offsets|] == offsets;
    if last > |block| {
      return Err(Format);
    }
    if freed != raw.value.free {
      return Err(Format);
    }
    return raw;
  }

  // --- what an accepted page map promises ---------------------------------------------------------

  lemma {:induction false} AscendsFar(offsets: seq<nat>, i: nat, j: nat)
    requires Ascends(offsets) && i <= j < |offsets|
    ensures offsets[i] <= offsets[j]
    decreases j - i
  {
    if i < j {
      AscendsFar(offsets, i, j - 1);
      assert offsets[j - 1] <= offsets[j];
    }
  }

  /** Distinct items never share a byte, and every item lies inside the block. */
  lemma ItemsDisjoint(m: PageMap, block: bytes, i: nat, j: nat)
    requires Accepts(m, block) && i < j < m.Count()
    ensures m.offsets[i] <= m.offsets[i + 1] <= m.offsets[j] <= m.offsets[j + 1] <= |block|
  {
    AscendsFar(m.offsets, i, i + 1);
    AscendsFar(m.offsets, i + 1, j);
    AscendsFar(m.offsets, j, j + 1);
    AscendsFar(m.offsets, j + 1, |m.offsets| - 1);
  }

  /** The items of the first `n` spans, one after the other. */
  function Items(offsets: seq<nat>, block: bytes, n: nat): bytes
    requires Ascends(offsets) && n < |offsets| && offsets[|offsets| - 1] <= |block|
  {
    if n == 0 then []
    else
      AscendsFar(offsets, n - 1, n);
      AscendsFar(offsets, n, |offsets| - 1);
      Items(offsets, block, n - 1) + block[offsets[n - 1]..offsets[n]]
  }

  /** The items tile their span: joined in order they are the block from the first offset to the last. */
  lemma {:induction false} ItemsTile(offsets: seq<nat>, block: bytes, n: nat)
    requires Ascends(offsets) && n < |offsets| && offsets[|offsets| - 1] <= |block|
    ensures offsets[0] <= offsets[n] <= |block|
    ensures Items(offsets, block, n) == block[offsets[0]..offsets[n]]
  {
    AscendsFar(offsets, 0, n);
    AscendsFar(offsets, n, |offsets| - 1);
    if n > 0 {
      AscendsFar(offsets, 0, n - 1);
      ItemsTile(offsets, block, n - 1);
      assert block[offsets[0]..offsets[n]] == block[offsets[0]..offsets[n - 1]] + block[offsets[n - 1]..offsets[n]];
    }
  }

  /** How many of the first `n` items are empty. */
  function Empties(offsets: seq<nat>, n: nat): nat
    requires n < |offsets|
  {
    if n == 0 then 0 else Empties(offsets, n - 1) + if offsets[n - 1] == offsets[n] then 1 else 0
  }

  /** `cFree` is the number of empty items. */
  lemma {:induction false} FreedCountsEmpties(offsets: seq<nat>, n: nat)
    requires n < |offsets|
    ensures Freed(offsets[..n + 1]) == Empties(offsets, n)
  {
    if n > 0 {
      FreedCountsEmpties(offsets, n - 1);
      assert offsets[..n + 1][..n] == offsets[..n];
    }
  }

  /** All that an accepted page map says about its block. */
  lemma PageMapTiles(blockIndex: nat, block: bytes)
    requires ParsedPageMap(blockIndex, block).Ok?
    ensures var m := ParsedPageMap(blockIndex, block).value;
            && Accepts(m, block)
            && m.offsets[0] <= m.offsets[m.Count()] <= |block|
            && Items(m.offsets, block, m.Count()) == block[m.offsets[0]..m.offsets[m.Count()]]
            && m.free == Empties(m.offsets, m.Count())
  {
    hide ParsedPageMap, Accepts, Freed, Empties, Items;
    MapTiles(ParsedPageMap(blockIndex, block).value, block);
  }

  lemma MapTiles(m: PageMap, block: bytes)
    requires Accepts(m, block)
    ensures var n := |m.offsets| - 1;
            && m.offsets[0] <= m.offsets[n] <= |block|
            && Items(m.offsets, block, n) == block[m.offsets[0]..m.offsets[n]]
            && m.free == Empties(m.offsets, n)
  {
    hide Ascends, Freed, Empties, Items;
    var n := |m.offsets| - 1;
    ItemsTile(m.offsets, block, n);
    FreedCountsEmpties(m.offsets, n);
    assert m.offsets[..n + 1] == m.offsets;
  }

  // --- items -----------------------------------------------------------------------------------------

  /** What an id names in a block with an accepted page map. */
  function ItemOf(m: PageMap, block: bytes, index: nat): (r: Result<bytes>)
    requires Accepts(m, block)
    ensures r.Ok? ==> r.value != []
  {
    if index == 0 || index > m.Count() then Err(Format)
    else
      AscendsFar(m.offsets, index - 1, index);
      AscendsFar(m.offsets, index, |m.offsets| - 1);
      if m.offsets[index - 1] == m.offsets[index] then Err(Format)
      else Ok(block[m.offsets[index - 1]..m.offsets[index]])
  }

  /** The bytes an id names, as a function of the blocks alone. */
  function Item(blocks: seq<bytes>, hid: nat): (r: Result<bytes>)
    ensures r.Ok? ==> r.value != []
  {
    if BlockIndex(hid) >= |blocks| then Err(Format)
    else
      var block := blocks[BlockIndex(hid)];
      var m :- ParsedPageMap(BlockIndex(hid), block);
      ItemOf(m, block, ItemIndex(hid))
  }

  /** Every item is a nonempty slice of its block, and items with different indices are disjoint slices. */
  lemma ItemIsSlice(blocks: seq<bytes>, hid: nat) returns (start: nat, end: nat)
    requires Item(blocks, hid).Ok?
    ensures BlockIndex(hid) < |blocks|
    ensures start < end <= |blocks[BlockIndex(hid)]|
    ensures Item(blocks, hid).value == blocks[BlockIndex(hid)][start..end]
    ensures var m := ParsedPageMap(BlockIndex(hid), blocks[BlockIndex(hid)]).value;
            0 < ItemIndex(hid) < |m.offsets| && start == m.offsets[ItemIndex(hid) - 1] && end == m.offsets[ItemIndex(hid)]
  {
    hide ParsedPageMap;
    var m := ParsedPageMap(BlockIndex(hid), blocks[BlockIndex(hid)]).value;
    AscendsFar(m.offsets, ItemIndex(hid) - 1, ItemIndex(hid));
    AscendsFar(m.offsets, ItemIndex(hid), |m.offsets| - 1);
    start, end := m.offsets[ItemIndex(hid) - 1], m.offsets[ItemIndex(hid)];
  }

  lemma ItemsOfOneBlockDisjoint(blocks: seq<bytes>, a: nat, b: nat)
    requires Item(blocks, a).Ok? && Item(blocks, b).Ok?
    requires BlockIndex(a) == BlockIndex(b) && ItemIndex(a) < ItemIndex(b)
    ensures var m := ParsedPageMap(BlockIndex(a), blocks[BlockIndex(a)]).value;
            && ItemIndex(b) < |m.offsets|
            && m.offsets[ItemIndex(a) - 1] < m.offsets[ItemIndex(a)] <= m.offsets[ItemIndex(b) - 1] < m.offsets[ItemIndex(b)]
  {
    hide ParsedPageMap;
    var s1, e1 := ItemIsSlice(blocks, a);
    var s2, e2 := ItemIsSlice(blocks, b);
    var m := ParsedPageMap(BlockIndex(a), blocks[BlockIndex(a)]).value;
    ItemsDisjoint(m, blocks[BlockIndex(a)], ItemIndex(a) - 1, ItemIndex(b) - 1);
  }

  /** The allocations a block adds to the count, if its page map is accepted. */
  function ItemCount(blocks: seq<bytes>, b: nat): nat
    requires b < |blocks|
  {
    var m := ParsedPageMap(b, blocks[b]);
    if m.Ok? then m.value.Count() else 0
  }

  /** The allocations of those of the first `n` blocks that are in `some`. */
  function ItemsIn(blocks: seq<bytes>, some: set<nat>, n: nat): nat
    requires n <= |blocks|
  {
    if n == 0 then 0
    else ItemsIn(blocks, some, n - 1) + if n - 1 in some then ItemCount(blocks, n - 1) else 0
  }

  lemma {:induction false} ItemsInAdd(blocks: seq<bytes>, some: set<nat>, b: nat, n: nat)
    requires n <= |blocks| && b < |blocks| && b !in some
    ensures ItemsIn(blocks, some + {b}, n) == ItemsIn(blocks, some, n) + if b < n then ItemCount(blocks, b) else 0
  {
    hide ItemCount;
    if n > 0 {
      ItemsInAdd(blocks, some, b, n - 1);
    }
  }

  /** The allocations of all of the first `n` blocks. */
  function AllItems(blocks: seq<bytes>, n: nat): nat
    requires n <= |blocks|
  {
    if n == 0 then 0 else AllItems(blocks, n - 1) + ItemCount(blocks, n - 1)
  }

  lemma {:induction false} ItemsInBound(blocks: seq<bytes>, some: set<nat>, n: nat)
    requires n <= |blocks|
    ensures ItemsIn(blocks, some, n) <= AllItems(blocks, n)
  {
    hide ItemCount;
    if n > 0 {
      ItemsInBound(blocks, some, n - 1);
    }
  }

  /** The page maps of all blocks together stay within the ceiling on heap items. */
  ghost predicate Fits(blocks: seq<bytes>, limits: Limits) {
    AllItems(blocks, |blocks|) <= limits.maxHeapItems
  }

  class HeapNode {
    const blocks: seq<bytes>
    const limits: Limits
    const header: HeapHeader
    var pageMaps: map<nat, PageMap>
    var itemsSeen: nat

    /** Cached page maps are those of the blocks; in a heap that fits, the count is exactly theirs. */
    ghost predicate Valid()
      reads this
    {
      && (forall b :: b in pageMaps ==> b < |blocks| && ParsedPageMap(b, blocks[b]) == Ok(pageMaps[b]))
      && (Fits(blocks, limits) ==> itemsSeen == ItemsIn(blocks, pageMaps.Keys, |blocks|))
    }

    constructor (blocks: seq<bytes>, limits: Limits)
      requires blocks != [] && UnpackHeader(blocks[0]).Ok?
      ensures Valid() && this.blocks == blocks && this.limits == limits && header == UnpackHeader(blocks[0]).value
    {
      this.blocks := blocks;
      this.limits := limits;
      header := UnpackHeader(blocks[0]).value;
      pageMaps := map[];
      itemsSeen := 0;
      new;
      NothingIn(blocks, |blocks|);
      assert pageMaps.Keys == {};
    }

    /** A heap needs a block and a header in it. */
    static method Open(blocks: seq<bytes>, limits: Limits) returns (r: Result<HeapNode>)
      ensures r.Ok? <==> blocks != [] && UnpackHeader(blocks[0]).Ok?
      ensures r.Ok? ==> fresh(r.value) && r.value.Valid() && r.value.blocks == blocks && r.value.limits == limits
      ensures r.Ok? ==> r.value.header == UnpackHeader(blocks[0]).value
    {
      if blocks == [] {
        return Err(Format);
      }
      var header := UnpackHeader(blocks[0]);
      if header.Err? {
        return Err(header.error);
      }
      var heap := new HeapNode(blocks, limits);
      return Ok(heap);
    }

    /** A block's page map, parsed and counted on first use. */
    method PageMapOf(b: nat) returns (r: Result<PageMap>)
      requires Valid() && b < |blocks|
      modifies this`pageMaps, this`itemsSeen
      ensures Valid()
      ensures r == ParsedPageMap(b, blocks[b]) || (r == Err(Limit) && !Fits(blocks, limits))
    {
      hide ParsedPageMap, Accepts;
      if b in pageMaps {
        return Ok(pageMaps[b]);
      }
      r := ParsePageMap(b, blocks[b]);
      if r.Ok? {
        ItemsInAdd(blocks, pageMaps.Keys, b, |blocks|);
        ItemsInBound(blocks, pageMaps.Keys + {b}, |blocks|);
        OffsetsNotEmpty(b, blocks[b]);
        itemsSeen := itemsSeen + r.value.Count();
        if itemsSeen > limits.maxHeapItems {
          return Err(Limit);
        }
        assert (pageMaps[b := r.value]).Keys == pageMaps.Keys + {b};
        pageMaps := pageMaps[b := r.value];
      }
    }

    /** The bytes of an item: a function of the blocks alone as long as the heap fits the ceiling. */
    method Get(hid: nat) returns (r: Result<bytes>)
      requires Valid()
      modifies this`pageMaps, this`itemsSeen
      ensures Valid()
      ensures r == Item(blocks, hid) || (r == Err(Limit) && !Fits(blocks, limits))
    {
      if BlockIndex(hid) >= |blocks| {
        return Err(Format);
      }
      var m := PageMapOf(BlockIndex(hid));
      if m.Err? {
        return Err(m.error);
      }
      return ItemOf(m.value, blocks[BlockIndex(hid)], ItemIndex(hid));
    }
  }

  lemma {:induction false} NothingIn(blocks: seq<bytes>, n: nat)
    requires n <= |blocks|
    ensures ItemsIn(blocks, {}, n) == 0
  {
    if n > 0 {
      NothingIn(blocks, n - 1);
    }
  }

  lemma OffsetsNotEmpty(b: nat, block: bytes)
    requires ParsedPageMap(b, block).Ok?
    ensures ParsedPageMap(b, block).value.offsets != []
  {
  }
}
