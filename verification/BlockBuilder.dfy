/**
 The builders of well-formed blocks the suite reads back: a body padded to its allocation, the trailer last. Their
 overrides for writing false fields are not part of this model; the signature, which no reader looks at, is a
 parameter.
 */
module BlockBuilder {
  import opened Wire
  import opened Limits
  import opened Traversal
  import opened PageTree
  import opened BlockStore
  import Encode

  // --- builders --------------------------------------------------------------------------

  function TrailerBytes(t: Trailer): Result<bytes> {
    if t.size >= U16 || t.signature >= U16 || t.crc >= U32 || t.block >= U64 then Err(TooWide)
    else Ok(LE(t.size, 2) + LE(t.signature, 2) + LE(t.crc, 4) + LE(t.block, 8))
  }

  /** The smallest multiple of 64 that holds the body and a trailer. */
  function AllocationSize(size: nat): (total: nat)
    ensures total >= size + TRAILER_SIZE
  {
    (size + TRAILER_SIZE + BLOCK_ALIGNMENT - 1) / BLOCK_ALIGNMENT * BLOCK_ALIGNMENT
  }

  /** The body, zeros, the trailer as the last bytes of the allocation. */
  function Sealed(body: bytes, block: nat, signature: nat, crc: bytes -> nat): Result<bytes> {
    var trailer :- TrailerBytes(Trailer(|body|, signature, crc(body), block));
    Ok(body + seq(AllocationSize(|body|) - |body| - TRAILER_SIZE, _ => 0) + trailer)
  }

  function DataBlock(payload: bytes, block: nat, signature: nat, crc: bytes -> nat): Result<bytes> {
    if 1 <= |payload| <= MAX_DATA_SIZE then Sealed(payload, block, signature, crc) else Err(BadArgument)
  }

  /** `struct.pack` of unsigned 64-bit words that fit. */
  function PackWords(words: seq<nat>): (b: bytes)
    ensures |b| == 8 * |words|
  {
    if words == [] then [] else LE(words[0], 8) + PackWords(words[1..])
  }

  predicate AllWords(words: seq<nat>) {
    forall i :: 0 <= i < |words| ==> words[i] < U64
  }

  /** A tree block's header and its entries as words. */
  function TreeBody(h: TreeHeader, words: seq<nat>): Result<bytes> {
    if h.btype >= 0x100 || h.level >= 0x100 || h.count >= U16 || h.fourth >= U32 || !AllWords(words) then Err(TooWide)
    else Ok([h.btype, h.level] + LE(h.count, 2) + LE(h.fourth, 4) + PackWords(words))
  }

  /** XBLOCK and XXBLOCK. */
  function DataTreeBlock(
      entries: seq<nat>, level: nat, totalSize: nat, block: nat, signature: nat, crc: bytes -> nat): Result<bytes>
  {
    var body :- TreeBody(TreeHeader(BTYPE_DATA_TREE, level, |entries|, totalSize), entries);
    Sealed(body, block, signature, crc)
  }

  datatype LeafEntry = LeafEntry(node: nat, data: nat, sub: nat)
  datatype IndexLink = IndexLink(node: nat, next: nat)

  function LeafWords(entries: seq<LeafEntry>): (words: seq<nat>)
    ensures |words| == 3 * |entries|
  {
    if entries == [] then []
    else [entries[0].node, entries[0].data, entries[0].sub] + LeafWords(entries[1..])
  }

  function LinkWords(entries: seq<IndexLink>): (words: seq<nat>)
    ensures |words| == 2 * |entries|
  {
    if entries == [] then [] else [entries[0].node, entries[0].next] + LinkWords(entries[1..])
  }

  /** SLBLOCK. */
  function SubnodeLeafBlock(entries: seq<LeafEntry>, block: nat, signature: nat, crc: bytes -> nat): Result<bytes> {
    var body :- TreeBody(TreeHeader(BTYPE_SUBNODE_TREE, 0, |entries|, 0), LeafWords(entries));
    Sealed(body, block, signature, crc)
  }

  /** SIBLOCK. */
  function SubnodeIndexBlock(
      entries: seq<IndexLink>, level: nat, block: nat, signature: nat, crc: bytes -> nat): Result<bytes>
  {
    var body :- TreeBody(TreeHeader(BTYPE_SUBNODE_TREE, level, |entries|, 0), LinkWords(entries));
    Sealed(body, block, signature, crc)
  }

  // --- reading back --------------------------------------------------------------------------

  lemma TrailerReads(front: bytes, t: Trailer)
    requires TrailerBytes(t).Ok? && 1 <= t.size <= MAX_DATA_SIZE
    ensures |TrailerBytes(t).value| == TRAILER_SIZE
    ensures UnpackTrailer(front + TrailerBytes(t).value, |front|) == Ok(t)
  {
    hide LE, FromLE, Field;
    FieldWidths();
    var size, signature, crc, block := LE(t.size, 2), LE(t.signature, 2), LE(t.crc, 4), LE(t.block, 8);
    var buf := front + TrailerBytes(t).value;
    assert buf == front + size + (signature + crc + block);
    FieldOfLE(front, t.size, 2, signature + crc + block);
    assert buf == (front + size) + signature + (crc + block);
    FieldOfLE(front + size, t.signature, 2, crc + block);
    assert buf == (front + size + signature) + crc + block;
    FieldOfLE(front + size + signature, t.crc, 4, block);
    assert buf == (front + size + signature + crc) + block + [];
    FieldOfLE(front + size + signature + crc, t.block, 8, []);
  }

  /** A sealed body is its own prefix of an allocation of the right size, and the trailer at its end reads back. */
  lemma SealedParts(body: bytes, block: nat, signature: nat, crc: bytes -> nat)
    requires Sealed(body, block, signature, crc).Ok? && 1 <= |body| <= MAX_DATA_SIZE
    ensures var buf := Sealed(body, block, signature, crc).value;
            && BlockSize(|body|) == Ok(|buf|) && |buf| >= |body| + TRAILER_SIZE && buf[..|body|] == body
            && UnpackTrailer(buf, |buf| - TRAILER_SIZE) == Ok(Trailer(|body|, signature, crc(body), block))
  {
    hide UnpackTrailer, TrailerBytes;
    var t := Trailer(|body|, signature, crc(body), block);
    var zeros: bytes := seq(AllocationSize(|body|) - |body| - TRAILER_SIZE, _ => 0);
    TrailerReads(body + zeros, t);
  }

  /** A data block is accepted exactly when its id is no internal one; what is read is its payload, decoded. */
  lemma DataBlockReads(s: Store, payload: bytes, block: nat, signature: nat)
    requires DataBlock(payload, block, signature, s.crc).Ok?
    ensures var buf := DataBlock(payload, block, signature, s.crc).value;
            && |payload| + TRAILER_SIZE <= |buf|
            && VerifyData(s, buf, |payload|)
               == if IsInternal(block) then Err(Format)
                  else Encode.DecodeBlock(payload, s.cryptMethod, SearchKey(block) % U32)
  {
    hide Sealed, UnpackTrailer, Encode.DecodeBlock;
    SealedParts(payload, block, signature, s.crc);
  }

  lemma {:induction false} PackWordsAt(words: seq<nat>, i: nat)
    requires i < |words|
    ensures PackWords(words)[8 * i..8 * i + 8] == LE(words[i], 8)
  {
    hide LE;
    var first, rest := LE(words[0], 8), PackWords(words[1..]);
    assert PackWords(words) == first + rest;
    if i > 0 {
      PackWordsAt(words[1..], i - 1);
      SliceBehind(first, rest, 8 * (i - 1), 8 * (i - 1) + 8);
    } else {
      assert (first + rest)[0..8] == first;
    }
  }

  lemma TreeBodyParts(h: TreeHeader, words: seq<nat>, rest: bytes)
    requires TreeBody(h, words).Ok?
    ensures var body := TreeBody(h, words).value;
            && |body| == TREE_HEADER_SIZE + 8 * |words| && body[TREE_HEADER_SIZE..] == PackWords(words)
            && UnpackTreeHeader(body + rest) == Ok(h)
  {
    hide LE, FromLE, Field, PackWords;
    FieldWidths();
    OneByteField([], h.btype, [h.level] + LE(h.count, 2) + LE(h.fourth, 4) + PackWords(words) + rest);
    OneByteField([h.btype], h.level, LE(h.count, 2) + LE(h.fourth, 4) + PackWords(words) + rest);
    var count, fourth := LE(h.count, 2), LE(h.fourth, 4);
    FieldOfLE([h.btype, h.level], h.count, 2, fourth + PackWords(words) + rest);
    FieldOfLE([h.btype, h.level] + count, h.fourth, 4, PackWords(words) + rest);
    var all := TreeBody(h, words).value + rest;
    assert all == [] + [h.btype] + ([h.level] + count + fourth + PackWords(words) + rest);
    assert all == [h.btype] + [h.level] + (count + fourth + PackWords(words) + rest);
    assert all == [h.btype, h.level] + count + (fourth + PackWords(words) + rest);
    assert all == ([h.btype, h.level] + count) + fourth + (PackWords(words) + rest);
  }

  lemma OneByteField(front: bytes, b: byte, rest: bytes)
    ensures Field(front + [b] + rest, |front|, 1) == Ok(b)
  {
    var data := front + [b] + rest;
    assert data[|front|..|front| + 1] == [b];
    var one: bytes := [b];
    assert one[1..] == [];
  }

  /** Word `i` of a built body. */
  lemma WordReads(h: TreeHeader, words: seq<nat>, i: nat)
    requires TreeBody(h, words).Ok? && i < |words|
    ensures var body := TreeBody(h, words).value;
            TREE_HEADER_SIZE + 8 * i + 8 <= |body|
            && FromLE(body[TREE_HEADER_SIZE + 8 * i..TREE_HEADER_SIZE + 8 * i + 8]) == words[i]
  {
    hide LE, FromLE, PackWords;
    var body := TreeBody(h, words).value;
    TreeBodyParts(h, words, []);
    assert body[8..8 + |PackWords(words)|] == PackWords(words);
    SliceOfSlice(body, 8, PackWords(words), 8 * i, 8 * i + 8);
    PackWordsAt(words, i);
    FieldWidths();
    FromLEofLE(words[i], 8);
  }

  /** A tree block is accepted exactly when its id is an internal one; what is read is its header. */
  lemma TreeBlockReads(s: Store, h: TreeHeader, words: seq<nat>, block: nat, signature: nat)
    requires TreeBody(h, words).Ok? && |TreeBody(h, words).value| <= MAX_DATA_SIZE
    requires EntrySize(h.btype, h.level).Ok? && h.count * EntrySize(h.btype, h.level).value == 8 * |words|
    requires Sealed(TreeBody(h, words).value, block, signature, s.crc).Ok?
    ensures var body := TreeBody(h, words).value;
            var buf := Sealed(body, block, signature, s.crc).value;
            && BlockSize(|body|) == Ok(|buf|) && |body| <= |buf| && buf[..|body|] == body
            && VerifyTree(s, buf, |body|, h.btype) == if IsInternal(block) then Ok(h) else Err(Format)
  {
    hide TreeBody, Sealed, UnpackTreeHeader, UnpackTrailer, BlockSize;
    var body := TreeBody(h, words).value;
    var buf := Sealed(body, block, signature, s.crc).value;
    TreeBodyParts(h, words, []);
    SealedParts(body, block, signature, s.crc);
    TreeBodyParts(h, words, buf[|body|..]);
    assert buf == body + buf[|body|..];
    BlockSizeIsLeast(|body|);
    assert TreeTrailerOffset(|body|, h.count, EntrySize(h.btype, h.level).value) == |buf| - TRAILER_SIZE;
  }

  // --- reading built blocks through the block B-tree's entries ---------------------------------

  /** The file holds `buf` where `e` says, inside the ceiling. */
  ghost predicate Stores(s: Store, e: Entry, buf: bytes) {
    && e.BlockEntry? && BlockSize(e.size) == Ok(|buf|)
    && e.index + |buf| <= Min(s.limits.maxFileSize, |s.file|)
    && s.file[e.index..e.index + |buf|] == buf
  }

  /** The file holds, where `e` says, a data block built from `data` as the store encodes it. */
  ghost predicate StoresData(s: Store, e: Entry, data: bytes, signature: nat) {
    && e.BlockEntry? && !IsInternal(e.block) && e.size == |data|
    && var stored := Encode.EncodeBlock(data, s.cryptMethod, SearchKey(e.block) % U32);
       && stored.Ok?
       && var buf := DataBlock(stored.value, e.block, signature, s.crc);
          buf.Ok? && Stores(s, e, buf.value)
  }

  /** Data stored under a method reads back as it was before it was encoded for its block. */
  lemma DataReadsBack(s: Store, e: Entry, data: bytes, signature: nat)
    requires StoresData(s, e, data, signature)
    ensures DataNodeOf(s, e) == Ok(Data(data))
  {
    hide DataBlock, VerifyData, Encode.EncodeBlock, Encode.DecodeBlock, BlockSize;
    var key := SearchKey(e.block) % U32;
    var stored := Encode.EncodeBlock(data, s.cryptMethod, key).value;
    Encode.EncodeBlockDecodes(data, s.cryptMethod, key);
    DataBlockReads(s, stored, e.block, signature);
  }

  /** The file holds, where `e` says, a data tree block built over these children. */
  ghost predicate StoresDataTree(
      s: Store, e: Entry, entries: seq<nat>, level: nat, totalSize: nat, signature: nat)
  {
    && e.BlockEntry? && IsInternal(e.block) && e.size == TREE_HEADER_SIZE + 8 * |entries| <= MAX_DATA_SIZE
    && var buf := DataTreeBlock(entries, level, totalSize, e.block, signature, s.crc);
       buf.Ok? && Stores(s, e, buf.value)
  }

  /** A built data tree block reads back as its level, its size and its children in order. */
  lemma DataTreeReadsBack(s: Store, e: Entry, entries: seq<nat>, level: nat, totalSize: nat, signature: nat)
    requires StoresDataTree(s, e, entries, level, totalSize, signature)
    ensures DataNodeOf(s, e) == Ok(XBlock(level, totalSize, entries))
  {
    hide TreeBody, Sealed, VerifyTree, BlockSize, Ids, UnpackTreeHeader, PackWords, AllWords;
    var h := TreeHeader(BTYPE_DATA_TREE, level, |entries|, totalSize);
    IdsRead(h, entries);
    TreeBlockReads(s, h, entries, e.block, signature);
  }

  lemma IdsRead(h: TreeHeader, entries: seq<nat>)
    requires TreeBody(h, entries).Ok?
    ensures var body := TreeBody(h, entries).value;
            |body| == TREE_HEADER_SIZE + 8 * |entries| && Ids(body, TREE_HEADER_SIZE, |entries|) == entries
  {
    hide TreeBody, UnpackTreeHeader, PackWords, AllWords, FromLE;
    var body := TreeBody(h, entries).value;
    TreeBodyParts(h, entries, []);
    forall i | 0 <= i < |entries|
      ensures Ids(body, TREE_HEADER_SIZE, |entries|)[i] == entries[i]
    {
      WordReads(h, entries, i);
    }
  }

  lemma {:induction false} LeafWordsAt(entries: seq<LeafEntry>, i: nat)
    requires i < |entries|
    ensures LeafWords(entries)[3 * i] == entries[i].node
    ensures LeafWords(entries)[3 * i + 1] == entries[i].data
    ensures LeafWords(entries)[3 * i + 2] == entries[i].sub
  {
    if i > 0 {
      LeafWordsAt(entries[1..], i - 1);
    }
  }

  lemma {:induction false} LinkWordsAt(entries: seq<IndexLink>, i: nat)
    requires i < |entries|
    ensures LinkWords(entries)[2 * i] == entries[i].node && LinkWords(entries)[2 * i + 1] == entries[i].next
  {
    if i > 0 {
      LinkWordsAt(entries[1..], i - 1);
    }
  }

  /** What a leaf entry means to the reader: a 32-bit node id, and no subnodes for a null id. */
  function Meaning(e: LeafEntry): SubEntry {
    SubEntry(e.node % U32, e.data, if SearchKey(e.sub) == 0 then None else Some(e.sub))
  }

  /** A built SLBLOCK reads back as its entries in order. */
  lemma SubnodeLeafReadsBack(s: Store, e: Entry, entries: seq<LeafEntry>, signature: nat)
    requires e.BlockEntry? && IsInternal(e.block)
    requires e.size == TREE_HEADER_SIZE + 24 * |entries| <= MAX_DATA_SIZE
    requires SubnodeLeafBlock(entries, e.block, signature, s.crc).Ok?
    requires Stores(s, e, SubnodeLeafBlock(entries, e.block, signature, s.crc).value)
    ensures SubBlockOf(s, e).Ok? && SubBlockOf(s, e).value.SubLeaf?
    ensures |SubBlockOf(s, e).value.entries| == |entries|
    ensures forall i :: 0 <= i < |entries| ==> SubBlockOf(s, e).value.entries[i] == Meaning(entries[i])
  {
    hide TreeBody, Sealed, VerifyTree, BlockSize, LeafWords, SubEntries, NextLevels, Meaning;
    hide UnpackTreeHeader, PackWords, AllWords;
    var h, words := TreeHeader(BTYPE_SUBNODE_TREE, 0, |entries|, 0), LeafWords(entries);
    LeafEntriesRead(h, entries);
    TreeBlockReads(s, h, words, e.block, signature);
    assert SubBlockOf(s, e) == Ok(SubLeaf(SubEntries(TreeBody(h, words).value, |entries|)));
  }

  lemma LeafEntriesRead(h: TreeHeader, entries: seq<LeafEntry>)
    requires TreeBody(h, LeafWords(entries)).Ok?
    ensures var body := TreeBody(h, LeafWords(entries)).value;
            && |body| == TREE_HEADER_SIZE + 24 * |entries|
            && forall i :: 0 <= i < |entries| ==> SubEntries(body, |entries|)[i] == Meaning(entries[i])
  {
    hide TreeBody, LeafWords, FromLE, UnpackTreeHeader, PackWords, AllWords;
    var words := LeafWords(entries);
    var body := TreeBody(h, words).value;
    TreeBodyParts(h, words, []);
    forall i | 0 <= i < |entries|
      ensures SubEntries(body, |entries|)[i] == Meaning(entries[i])
    {
      LeafWordsAt(entries, i);
      WordReads(h, words, 3 * i);
      WordReads(h, words, 3 * i + 1);
      WordReads(h, words, 3 * i + 2);
    }
  }

  /** A built SIBLOCK reads back as the blocks of the next level in order. */
  lemma SubnodeIndexReadsBack(s: Store, e: Entry, entries: seq<IndexLink>, level: nat, signature: nat)
    requires e.BlockEntry? && IsInternal(e.block) && level > 0
    requires e.size == TREE_HEADER_SIZE + 16 * |entries| <= MAX_DATA_SIZE
    requires SubnodeIndexBlock(entries, level, e.block, signature, s.crc).Ok?
    requires Stores(s, e, SubnodeIndexBlock(entries, level, e.block, signature, s.crc).value)
    ensures SubBlockOf(s, e).Ok? && SubBlockOf(s, e).value.SubIndex?
    ensures |SubBlockOf(s, e).value.children| == |entries|
    ensures forall i :: 0 <= i < |entries| ==> SubBlockOf(s, e).value.children[i] == entries[i].next
  {
    hide TreeBody, Sealed, VerifyTree, BlockSize, LinkWords, FromLE, UnpackTreeHeader, PackWords, AllWords;
    var h, words := TreeHeader(BTYPE_SUBNODE_TREE, level, |entries|, 0), LinkWords(entries);
    var body := TreeBody(h, words).value;
    TreeBodyParts(h, words, []);
    TreeBlockReads(s, h, words, e.block, signature);
    forall i | 0 <= i < |entries|
      ensures NextLevels(body, |entries|)[i] == entries[i].next
    {
      LinkWordsAt(entries, i);
      WordReads(h, words, 2 * i + 1);
    }
    assert SubBlockOf(s, e) == Ok(SubIndex(NextLevels(body, |entries|)));
  }
}
