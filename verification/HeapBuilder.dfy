/**
 The builders of well-formed heaps and trees the suite reads back: items packed into one block, a tree packed into
 items. Their overrides for writing false fields are not part of this model.
 */
module HeapBuilder {
  import opened Wire
  import opened Limits
  import opened Heap
  import opened HeapTree

  // --- one heap block ------------------------------------------------------------------

  /** Where each item starts when the first starts at `start`, and where the last one ends. */
  function Offsets(start: nat, items: seq<bytes>): (offsets: seq<nat>)
    ensures |offsets| == |items| + 1
  {
    seq(|items| + 1, i requires 0 <= i <= |items| => start + |Join(items[..i])|)
  }

  /** `struct.pack` of unsigned shorts that fit. */
  function PackShorts(values: seq<nat>): (b: bytes)
    ensures |b| == 2 * |values|
  {
    if values == [] then [] else LE(values[0], 2) + PackShorts(values[1..])
  }

  predicate AllShort(values: seq<nat>) {
    forall i :: 0 <= i < |values| ==> values[i] < U16
  }

  /** HNPAGEMAP: the allocation count, the number of zero steps, the offsets. */
  function PageMapBytes(offsets: seq<nat>): Result<bytes>
    requires offsets != []
  {
    if |offsets| - 1 >= U16 || Freed(offsets) >= U16 || !AllShort(offsets) then Err(TooWide)
    else Ok(LE(|offsets| - 1, 2) + LE(Freed(offsets), 2) + PackShorts(offsets))
  }

  /** Bytes 0 and 1 of `body` replaced. */
  function Patched(body: bytes, at: nat): bytes {
    LE(at, 2) + body[Min(2, |body|)..]
  }

  /** A header, the items, padding, then the page map whose offset the header's first two bytes take. */
  function Block(head: bytes, items: seq<bytes>, pad: nat): Result<bytes> {
    var body := head + Join(items) + seq(pad, _ => 0);
    if |body| >= U16 then Err(TooWide)
    else
      var pageMap :- PageMapBytes(Offsets(|head|, items));
      Ok(Patched(body, |body|) + pageMap)
  }

  /** The items appended one after the other, the offset noted after each. */
  method HeapBlock(head: bytes, items: seq<bytes>, pad: nat) returns (r: Result<bytes>)
    ensures r == Block(head, items, pad)
  {
    var body, computed := head, [|head|];
    for i := 0 to |items|
      invariant body == head + Join(items[..i])
      invariant computed == Offsets(|head|, items)[..i + 1]
    {
      JoinSnoc(items, i);
      body := body + items[i];
      computed := computed + [|body|];
    }
    assert items[..|items|] == items;
    assert computed == Offsets(|head|, items);
    body := body + seq(pad, _ => 0);
    if |body| >= U16 {
      return Err(TooWide);
    }
    var pageMap := PageMapBytes(computed);
    if pageMap.Err? {
      return pageMap;
    }
    return Ok(Patched(body, |body|) + pageMap.value);
  }

  /** HNHDR, its page map offset still zero. */
  function HeaderBytes(client: byte, userRoot: nat): (b: bytes)
    ensures |b| == HEAP_HEADER_SIZE
  {
    LE(0, 2) + [HEAP_SIGNATURE, client] + LE(userRoot, 4) + LE(0, 4)
  }

  // --- reading a block back ------------------------------------------------------------------

  lemma {:induction false} PackShortsAt(values: seq<nat>, i: nat)
    requires i < |values|
    ensures PackShorts(values)[2 * i..2 * i + 2] == LE(values[i], 2)
  {
    hide LE;
    var first, rest := LE(values[0], 2), PackShorts(values[1..]);
    assert PackShorts(values) == first + rest;
    if i > 0 {
      PackShortsAt(values[1..], i - 1);
      SliceBehind(first, rest, 2 * (i - 1), 2 * (i - 1) + 2);
    } else {
      assert (first + rest)[0..2] == first;
    }
  }

  lemma {:induction false} ShortsOfPacked(block: bytes, at: nat, values: seq<nat>)
    requires at + 2 * |values| == |block| && block[at..] == PackShorts(values) && AllShort(values)
    ensures Shorts(block, at, |values|) == Ok(values)
  {
    FieldWidths();
    forall i | 0 <= i < |values|
      ensures Shorts(block, at, |values|).value[i] == values[i]
    {
      PackShortsAt(values, i);
      assert block[at + 2 * i..at + 2 * i + 2] == block[at..][2 * i..2 * i + 2];
      FromLEofLE(values[i], 2);
    }
    assert Shorts(block, at, |values|).value == values;
  }

  lemma {:induction false} FreedBound(offsets: seq<nat>)
    requires offsets != []
    ensures Freed(offsets) <= |offsets| - 1
  {
    if |offsets| > 1 {
      FreedBound(offsets[..|offsets| - 1]);
    }
  }

  lemma {:induction false} JoinAt(items: seq<bytes>, i: nat)
    requires i < |items|
    ensures |Join(items[..i])| + |items[i]| == |Join(items[..i + 1])| <= |Join(items)|
    ensures Join(items)[|Join(items[..i])|..|Join(items[..i + 1])|] == items[i]
    decreases |items|
  {
    hide Join;
    JoinSnoc(items, i);
    if i == |items| - 1 {
      assert items[..i + 1] == items;
    } else {
      var front := items[..|items| - 1];
      JoinSnoc(items, |items| - 1);
      assert items[..|items| - 1 + 1] == items;
      JoinAt(front, i);
      assert front[..i] == items[..i] && front[..i + 1] == items[..i + 1];
    }
  }

  lemma OffsetsAscend(start: nat, items: seq<bytes>)
    ensures Ascends(Offsets(start, items))
    ensures Offsets(start, items)[|items|] == start + |Join(items)|
  {
    hide Join;
    forall i | 0 < i <= |items|
      ensures Offsets(start, items)[i - 1] <= Offsets(start, items)[i]
    {
      JoinSnoc(items, i - 1);
      assert items[..i - 1 + 1] == items[..i];
      assert Offsets(start, items)[i - 1] == start + |Join(items[..i - 1])|;
    }
    assert items[..|items|] == items;
  }

  /** What makes `head` the start of block `b`: a header of its kind, and room for the bitmap where there is one. */
  predicate Heads(b: nat, head: bytes) {
    if b == 0 then UnpackHeader(head).Ok?
    else |head| >= if IsBitmapBlock(b) then BITMAP_HEADER_SIZE else 2
  }

  lemma HeaderKept(head: bytes, block: bytes, at: nat)
    requires UnpackHeader(head).Ok? && |block| >= |head| && at < U16
    requires block[..2] == LE(at, 2) && block[2..|head|] == head[2..]
    ensures UnpackHeader(block) == Ok(UnpackHeader(head).value.(pageMapOffset := at))
  {
    FieldWidths();
    FromLEofLE(at, 2);
    assert block[0..2] == LE(at, 2);
    SliceKept(block, head, 2, 3);
    SliceKept(block, head, 3, 4);
    SliceKept(block, head, 4, 8);
  }

  lemma SliceKept(block: bytes, head: bytes, low: nat, high: nat)
    requires 2 <= low <= high <= |head| <= |block| && block[2..|head|] == head[2..]
    ensures block[low..high] == head[low..high]
  {
    forall k | low <= k < high
      ensures block[k] == head[k]
    {
      assert block[2..|head|][k - 2] == head[2..][k - 2];
    }
  }

  lemma OffsetOfBlock(b: nat, head: bytes, block: bytes, at: nat)
    requires Heads(b, head) && |block| >= |head| >= 2 && at < U16
    requires block[..2] == LE(at, 2) && block[2..|head|] == head[2..]
    ensures PageMapOffset(b, block) == Ok(at)
  {
    if b == 0 {
      HeaderKept(head, block, at);
    } else {
      FieldWidths();
      FromLEofLE(at, 2);
      assert block[0..2] == LE(at, 2);
    }
  }

  lemma PackedMapReads(b: nat, block: bytes, at: nat, offsets: seq<nat>)
    requires offsets != [] && PageMapBytes(offsets).Ok? && at <= |block|
    requires PageMapOffset(b, block) == Ok(at) && block[at..] == PageMapBytes(offsets).value
    ensures RawPageMap(b, block) == Ok(PageMap(offsets, Freed(offsets)))
  {
    hide PageMapOffset, PackShorts, Freed, Field, Shorts, LE, FromLE;
    FieldWidths();
    var n, f := |offsets| - 1, Freed(offsets);
    var packed := PackShorts(offsets);
    assert block == block[..at] + block[at..];
    FieldOfLE(block[..at], n, 2, LE(f, 2) + packed);
    assert block == block[..at] + LE(n, 2) + (LE(f, 2) + packed);
    assert |block[..at] + LE(n, 2)| == at + 2;
    FieldOfLE(block[..at] + LE(n, 2), f, 2, packed);
    assert block == block[..at] + LE(n, 2) + LE(f, 2) + packed;
    assert block[at + 4..] == packed;
    ShortsOfPacked(block, at + 4, offsets);
  }

  lemma PatchedParts(at: bytes, head: bytes, joined: bytes, zeros: bytes, pageMap: bytes)
    ensures var block, n := at + (head + joined + zeros) + pageMap, |at| + |head|;
            && block[..|at|] == at && block[|at|..n] == head && block[n..n + |joined|] == joined
            && block[n + |joined| + |zeros|..] == pageMap
  {
  }

  /** The parts of a built block. */
  lemma BlockParts(head: bytes, items: seq<bytes>, pad: nat)
    requires |head| >= 2 && Block(head, items, pad).Ok?
    ensures var block, at := Block(head, items, pad).value, |head| + |Join(items)| + pad;
            && at < U16 && at <= |block|
            && block[..2] == LE(at, 2) && block[2..|head|] == head[2..]
            && block[|head|..|head| + |Join(items)|] == Join(items)
            && PageMapBytes(Offsets(|head|, items)).Ok?
            && block[at..] == PageMapBytes(Offsets(|head|, items)).value
  {
    hide Join, PageMapBytes, Offsets, LE;
    var joined, zeros: bytes := Join(items), seq(pad, _ => 0);
    var body := head + joined + zeros;
    var start := Patched(body, |body|);
    assert start == LE(|body|, 2) + (head[2..] + joined + zeros);
    PatchedParts(LE(|body|, 2), head[2..], joined, zeros, PageMapBytes(Offsets(|head|, items)).value);
    hide Block, Patched;
  }

  /** The reader accepts the page map of every block built, with exactly the offsets the builder noted. */
  lemma BlockAccepted(b: nat, head: bytes, items: seq<bytes>, pad: nat)
    requires |head| >= 2 && Heads(b, head) && Block(head, items, pad).Ok?
    ensures var offsets := Offsets(|head|, items);
            ParsedPageMap(b, Block(head, items, pad).value) == Ok(PageMap(offsets, Freed(offsets)))
  {
    var block, at := Block(head, items, pad).value, |head| + |Join(items)| + pad;
    BlockParts(head, items, pad);
    hide Join, PageMapBytes, Offsets, Block, PageMapOffset, RawPageMap, Heads, Freed;
    OffsetOfBlock(b, head, block, at);
    PackedMapReads(b, block, at, Offsets(|head|, items));
    OffsetsAscend(|head|, items);
  }

  /** An id built for item `i` of a built block names that item, unless it is empty, which the reader refuses. */
  lemma BlockReads(blocks: seq<bytes>, b: nat, head: bytes, items: seq<bytes>, pad: nat, i: nat)
    requires |head| >= 2 && Heads(b, head) && b < |blocks| && b < U16
    requires Block(head, items, pad) == Ok(blocks[b])
    requires 1 <= i <= |items| && i <= MAX_ITEM_INDEX
    ensures Item(blocks, FromParts(i, b).value) == if items[i - 1] == [] then Err(Format) else Ok(items[i - 1])
  {
    hide ParsedPageMap, Join, Block, FromParts, Offsets, Freed, Heads;
    PartsRoundTrip(i, b);
    BlockAccepted(b, head, items, pad);
    SpanOfItem(blocks[b], head, items, pad, i);
  }

  lemma SpanOfItem(block: bytes, head: bytes, items: seq<bytes>, pad: nat, i: nat)
    requires |head| >= 2 && Block(head, items, pad) == Ok(block) && 1 <= i <= |items|
    ensures var offsets := Offsets(|head|, items);
            offsets[i - 1] <= offsets[i] <= |block| && block[offsets[i - 1]..offsets[i]] == items[i - 1]
  {
    hide Join, Block, PageMapBytes;
    BlockParts(head, items, pad);
    JoinAt(items, i - 1);
    assert items[..i - 1 + 1] == items[..i];
    SliceOfSlice(block, |head|, Join(items), |Join(items[..i - 1])|, |Join(items[..i])|);
  }

  // --- a tree packed into items -------------------------------------------------------------------

  function LeafBytes(page: seq<Record>): bytes {
    if page == [] then [] else page[0].key + page[0].value + LeafBytes(page[1..])
  }

  function IndexBytes(page: seq<Pointer>): bytes {
    if page == [] then [] else page[0].key + LE(page[0].child, 4) + IndexBytes(page[1..])
  }

  /** Runs of `size`, the last one possibly shorter; one empty run for the empty list. */
  function Chunks<T>(s: seq<T>, size: nat): (chunks: seq<seq<T>>)
    requires size > 0
    ensures chunks != []
    ensures s != [] ==> forall i :: 0 <= i < |chunks| ==> chunks[i] != []
    decreases |s|
  {
    if |s| <= size then [s] else [s[..size]] + Chunks(s[size..], size)
  }

  /** The id of page `n`; the tree header is item 1, so the first page is item 2. */
  function PageHid(n: nat): nat {
    32 * (n + 2)
  }

  /** The pointers to pages `n`, `n` + 1, ... that start with the given keys. */
  function Number(firstKeys: seq<bytes>, n: nat): (refs: seq<Pointer>)
    ensures |refs| == |firstKeys|
  {
    if firstKeys == [] then [] else [Pointer(firstKeys[0], PageHid(n))] + Number(firstKeys[1..], n + 1)
  }

  function RecordKey(r: Record): bytes {
    r.key
  }

  function PointerKey(p: Pointer): bytes {
    p.key
  }

  /** The key each page starts with. */
  function FirstKeys<T>(pages: seq<seq<T>>, key: T -> bytes): (keys: seq<bytes>)
    requires forall i :: 0 <= i < |pages| ==> pages[i] != []
    ensures |keys| == |pages|
  {
    seq(|pages|, i requires 0 <= i < |pages| => key(pages[i][0]))
  }

  function Packed<T>(pages: seq<seq<T>>, pack: seq<T> -> bytes): (items: seq<bytes>)
    ensures |items| == |pages|
  {
    seq(|pages|, i requires 0 <= i < |pages| => pack(pages[i]))
  }

  /** The pages placed so far, and the pointers to those of the newest level. */
  datatype Placed = Placed(pages: seq<bytes>, refs: seq<Pointer>)

  function LeafGroups(pairs: seq<Record>, levels: nat, fanout: nat): (groups: seq<seq<Record>>)
    requires pairs != [] && (levels > 0 ==> fanout > 0)
    ensures groups != [] && forall i :: 0 <= i < |groups| ==> groups[i] != []
  {
    if levels > 0 then Chunks(pairs, fanout) else [pairs]
  }

  /** The pages of the level above `refs` when `k` levels are still to come: the last is a single page. */
  function IndexGroups(refs: seq<Pointer>, k: nat, fanout: nat): (groups: seq<seq<Pointer>>)
    requires refs != [] && fanout > 0
    ensures groups != [] && forall i :: 0 <= i < |groups| ==> groups[i] != []
  {
    if k > 1 then Chunks(refs, fanout) else [refs]
  }

  /** A level of pages behind those placed, and the pointers to it. */
  function Place<T>(pages: seq<bytes>, groups: seq<seq<T>>, pack: seq<T> -> bytes, key: T -> bytes): Placed
    requires forall i :: 0 <= i < |groups| ==> groups[i] != []
  {
    Placed(pages + Packed(groups, pack), Number(FirstKeys(groups, key), |pages|))
  }

  function PlaceLeaves(groups: seq<seq<Record>>): Placed
    requires forall i :: 0 <= i < |groups| ==> groups[i] != []
  {
    Place([], groups, LeafBytes, RecordKey)
  }

  function PlaceIndexes(pages: seq<bytes>, groups: seq<seq<Pointer>>): Placed
    requires forall i :: 0 <= i < |groups| ==> groups[i] != []
  {
    Place(pages, groups, IndexBytes, PointerKey)
  }

  function PlaceLevels(placed: Placed, k: nat, fanout: nat): (p: Placed)
    requires placed.refs != [] && (k > 0 ==> fanout > 0)
    ensures p.refs != []
    decreases k
  {
    if k == 0 then placed
    else PlaceLevels(PlaceIndexes(placed.pages, IndexGroups(placed.refs, k, fanout)), k - 1, fanout)
  }

  function Pages(pairs: seq<Record>, levels: nat, fanout: nat): (p: Placed)
    requires pairs != [] && (levels > 0 ==> fanout > 0)
    ensures p.refs != []
  {
    PlaceLevels(PlaceLeaves(LeafGroups(pairs, levels, fanout)), levels, fanout)
  }

  /** BTHHEADER. */
  function TreeHeaderBytes(keySize: nat, entrySize: nat, levels: nat, root: nat): Result<bytes> {
    if keySize >= 0x100 || entrySize >= 0x100 || levels >= 0x100 || root >= U32 then Err(TooWide)
    else Ok([TREE_TYPE, keySize, entrySize, levels] + LE(root, 4))
  }

  /** All items of the heap over `pairs`: the tree header, then the pages, the root last. */
  function TreeItems(pairs: seq<Record>, keySize: nat, entrySize: nat, levels: nat, fanout: nat): Result<seq<bytes>> {
    if pairs == [] then
      var header :- TreeHeaderBytes(keySize, entrySize, levels, 0);
      Ok([header])
    else if levels > 0 && fanout == 0 then Err(BadArgument)
    else
      var p := Pages(pairs, levels, fanout);
      var header :- TreeHeaderBytes(keySize, entrySize, levels, p.refs[0].child);
      Ok([header] + p.pages)
  }

  /**
   A heap block holding a tree over `pairs`. An id too wide for an index record belongs to an item too many for
   the page map, so both fail as too wide.
   */
  function TreeHeap(pairs: seq<Record>, keySize: nat, entrySize: nat, levels: nat, fanout: nat, client: byte): Result<bytes> {
    var items :- TreeItems(pairs, keySize, entrySize, levels, fanout);
    Block(HeaderBytes(client, 32), items, 0)
  }

  lemma NumberNothing(n: nat)
    ensures Number([], n) == []
  {
  }

  lemma {:induction false} NumberSnoc(keys: seq<bytes>, key: bytes, n: nat)
    ensures Number(keys + [key], n) == Number(keys, n) + [Pointer(key, PageHid(n + |keys|))]
    decreases |keys|
  {
    if keys == [] {
      assert keys + [key] == [key];
    } else {
      assert (keys + [key])[1..] == keys[1..] + [key];
      NumberSnoc(keys[1..], key, n + 1);
    }
  }

  /** Items appended level by level, `hid(len(items))` noted after each; the header replaces its placeholder last. */
  method BthHeap(pairs: seq<Record>, keySize: nat, entrySize: nat, levels: nat, fanout: nat, client: byte)
    returns (r: Result<bytes>)
    ensures r == TreeHeap(pairs, keySize, entrySize, levels, fanout, client)
  {
    var items: seq<bytes>, root := [[]], 0;
    if pairs != [] {
      if levels > 0 && fanout == 0 {
        return Err(BadArgument);
      }
      var refs: seq<Pointer>;
      items, refs := Append(items, LeafGroups(pairs, levels, fanout), LeafBytes, RecordKey);
      ghost var goal := Pages(pairs, levels, fanout);
      for level := 0 to levels
        invariant refs != [] && items != []
        invariant PlaceLevels(Placed(items[1..], refs), levels - level, fanout) == goal
      {
        items, refs := Append(items, IndexGroups(refs, levels - level, fanout), IndexBytes, PointerKey);
      }
      root := refs[0].child;
      assert goal == Placed(items[1..], refs);
    }
    var header := TreeHeaderBytes(keySize, entrySize, levels, root);
    if header.Err? {
      return header;
    }
    assert items[0 := header.value] == [header.value] + items[1..];
    items := items[0 := header.value];
    if pairs != [] {
      assert items == [header.value] + Pages(pairs, levels, fanout).pages;
      assert root == Pages(pairs, levels, fanout).refs[0].child;
    } else {
      assert items == [header.value];
      assert header == TreeHeaderBytes(keySize, entrySize, levels, 0);
    }
    assert TreeItems(pairs, keySize, entrySize, levels, fanout) == Ok(items);
    r := HeapBlock(HeaderBytes(client, 32), items, 0);
  }

  /** One level: each page appended to the items, its key and id noted. */
  method Append<T>(items: seq<bytes>, groups: seq<seq<T>>, pack: seq<T> -> bytes, key: T -> bytes)
    returns (all: seq<bytes>, refs: seq<Pointer>)
    requires items != [] && forall i :: 0 <= i < |groups| ==> groups[i] != []
    ensures all != [] && Placed(all[1..], refs) == Place(items[1..], groups, pack, key)
  {
    hide Number;
    all, refs := items, [];
    ghost var keys, packed := FirstKeys(groups, key), Packed(groups, pack);
    NumberNothing(|items| - 1);
    for i := 0 to |groups|
      invariant all == items + packed[..i]
      invariant refs == Number(keys[..i], |items| - 1)
    {
      NumberSnoc(keys[..i], key(groups[i][0]), |items| - 1);
      assert keys[..i + 1] == keys[..i] + [key(groups[i][0])];
      all := all + [pack(groups[i])];
      refs := refs + [Pointer(key(groups[i][0]), 32 * |all|)];
    }
    assert keys[..|groups|] == keys && packed[..|groups|] == packed;
    assert all[1..] == items[1..] + packed;
  }
}
