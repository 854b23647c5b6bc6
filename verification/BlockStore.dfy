/**
 Blocks on disk ([MS-PST] section 2.2.2.8): the 64-byte allocation with its trailer, the checks on a data block and
 on a tree block, and what one block id resolves to through the block B-tree.
 */
module BlockStore {
  import opened Wire
  import opened Limits
  import opened Traversal
  import opened PageTree
  import Encode

  const MAX_BLOCK_SIZE := 8192
  const BLOCK_ALIGNMENT := 64
  const TRAILER_SIZE := 16
  const MAX_DATA_SIZE := MAX_BLOCK_SIZE - TRAILER_SIZE
  const TREE_HEADER_SIZE := 8
  const BTYPE_DATA_TREE := 1
  const BTYPE_SUBNODE_TREE := 2

  /** The allocation of a block with `size` data bytes: rounded up to 64 with the trailer inside. */
  function BlockSize(size: nat): Result<nat> {
    if 1 <= size <= MAX_DATA_SIZE
    then Ok((size + TRAILER_SIZE + BLOCK_ALIGNMENT - 1) / BLOCK_ALIGNMENT * BLOCK_ALIGNMENT)
    else Err(Format)
  }

  /** The allocation is the least multiple of 64 that holds the data and the trailer, at most 8192. */
  lemma BlockSizeIsLeast(size: nat)
    requires 1 <= size <= MAX_DATA_SIZE
    ensures var total := BlockSize(size).value;
            && total % BLOCK_ALIGNMENT == 0 && size + TRAILER_SIZE <= total <= MAX_BLOCK_SIZE
            && forall m: nat :: m % BLOCK_ALIGNMENT == 0 && size + TRAILER_SIZE <= m ==> total <= m
  {
  }

  // --- the trailer ------------------------------------------------------------------------

  datatype Trailer = Trailer(size: nat, signature: nat, crc: nat, block: nat)

  function UnpackTrailer(buf: bytes, offset: nat): Result<Trailer> {
    var size :- Field(buf, offset, 2);
    var signature :- Field(buf, offset + 2, 2);
    var crc :- Field(buf, offset + 4, 4);
    var block :- Field(buf, offset + 8, 8);
    if 1 <= size <= MAX_DATA_SIZE then Ok(Trailer(size, signature, crc, block)) else Err(Format)
  }

  /** The store: the file's bytes, the block B-tree, the CRC, the header's encoding and the ceilings. */
  datatype Store = Store(
    file: bytes,
    bbt: Tree,
    crc: bytes -> nat,
    cryptMethod: nat,
    limits: Limits)

  function ReadAllocation(s: Store, index: nat, size: nat): (r: Result<bytes>)
    ensures r.Ok? ==> BlockSize(size) == Ok(|r.value|)
  {
    var total :- BlockSize(size);
    if index + total > s.limits.maxFileSize then Err(Format)
    else if index + total > |s.file| then Err(Format)
    else Ok(s.file[index..index + total])
  }

  /** A data block: its own `cb`, no internal bit, the CRC of the `cb` bytes, then decoded. */
  function VerifyData(s: Store, buf: bytes, size: nat): (r: Result<bytes>)
    requires size + TRAILER_SIZE <= |buf|
  {
    var data := buf[..size];
    var trailer :- UnpackTrailer(buf, |buf| - TRAILER_SIZE);
    if trailer.size != size || IsInternal(trailer.block) || s.crc(data) != trailer.crc then Err(Format)
    else Encode.DecodeBlock(data, s.cryptMethod, SearchKey(trailer.block) % U32)
  }

  datatype TreeHeader = TreeHeader(btype: nat, level: nat, count: nat, fourth: nat)

  function UnpackTreeHeader(buf: bytes): Result<TreeHeader> {
    var btype :- Field(buf, 0, 1);
    var level :- Field(buf, 1, 1);
    var count :- Field(buf, 2, 2);
    var fourth :- Field(buf, 4, 4);
    Ok(TreeHeader(btype, level, count, fourth))
  }

  /** The entry stride of a tree block, by type and level. */
  function EntrySize(btype: nat, level: nat): Result<nat> {
    if btype == BTYPE_DATA_TREE then Ok(8)
    else if btype == BTYPE_SUBNODE_TREE then Ok(if level == 0 then 24 else 16)
    else Err(Format)
  }

  /** Where the trailer of a tree block is looked for: behind `cb` by the padding the implied size needs. */
  function TreeTrailerOffset(size: nat, count: nat, stride: nat): (offset: nat)
    requires 8 <= size <= MAX_DATA_SIZE && count * stride <= size - TREE_HEADER_SIZE
  {
    var implied := TREE_HEADER_SIZE + count * stride;
    BlockSizeIsLeast(implied);
    size + (BlockSize(implied).value - implied - TRAILER_SIZE)
  }

  /**
   The located trailer never overlaps the `cb` bytes under the CRC, and it is the last 16 bytes of the
   allocation exactly when `cb` and the implied size agree modulo 64.
   */
  lemma TreeTrailerPlace(size: nat, count: nat, stride: nat)
    requires 8 <= size <= MAX_DATA_SIZE && count * stride <= size - TREE_HEADER_SIZE
    ensures var offset := TreeTrailerOffset(size, count, stride);
            && size <= offset
            && (offset + TRAILER_SIZE == BlockSize(size).value
                <==> size % BLOCK_ALIGNMENT == (TREE_HEADER_SIZE + count * stride) % BLOCK_ALIGNMENT)
  {
    hide BlockSize;
    var implied := TREE_HEADER_SIZE + count * stride;
    Padding(implied);
    Padding(size);
    SamePadding(size % BLOCK_ALIGNMENT, implied % BLOCK_ALIGNMENT);
  }

  lemma SamePadding(a: nat, b: nat)
    requires a < 64 && b < 64
    ensures (48 - a) % 64 == (48 - b) % 64 <==> a == b
  {
  }

  /** The padding between data and trailer depends on the size modulo 64 only. */
  lemma Padding(size: nat)
    requires 1 <= size <= MAX_DATA_SIZE
    ensures BlockSize(size).value - size - TRAILER_SIZE == (48 - size % BLOCK_ALIGNMENT) % BLOCK_ALIGNMENT
  {
    var q, r := size / 64, size % 64;
    assert size == 64 * q + r;
    if r <= 48 {
      assert (size + 79) / 64 == q + 1;
      assert (48 - r) % 64 == 48 - r;
    } else {
      assert (size + 79) / 64 == q + 2;
      assert (48 - r) % 64 == 112 - r;
    }
  }

  /** A tree block: its type, entries that fit `cb`, the trailer found and internal, the CRC of the `cb` bytes. */
  function VerifyTree(s: Store, buf: bytes, size: nat, expected: nat): (r: Result<TreeHeader>)
    requires 1 <= size <= MAX_DATA_SIZE && size <= |buf|
    ensures r.Ok? ==> var h := r.value; h.btype == expected && EntrySize(h.btype, h.level).Ok?
                                        && TREE_HEADER_SIZE + h.count * EntrySize(h.btype, h.level).value <= size
  {
    var h :- UnpackTreeHeader(buf);
    if h.btype != expected then Err(Format)
    else
      var stride :- EntrySize(h.btype, h.level);
      if size < TREE_HEADER_SIZE || h.count * stride > size - TREE_HEADER_SIZE then Err(Format)
      else
        var offset := TreeTrailerOffset(size, h.count, stride);
        if offset + TRAILER_SIZE > |buf| then Err(Format)
        else
          var trailer :- UnpackTrailer(buf, offset);
          if !IsInternal(trailer.block) || s.crc(buf[..size]) != trailer.crc then Err(Format) else Ok(h)
  }

  // --- what a block id resolves to -----------------------------------------------------------

  /** The block B-tree entry of an id, found under the id without its reserved bit. */
  function FindBlock(s: Store, id: nat): (r: Result<Entry>)
  {
    PageTree.Find(s.bbt, s.bbt.root, 0, {}, SearchKey(id))
  }

  lemma SearchKeyKeepsInternal(a: nat, b: nat)
    requires SearchKey(a) == SearchKey(b)
    ensures IsInternal(a) == IsInternal(b)
  {
  }

  datatype DataNode = Data(data: bytes) | XBlock(level: nat, totalSize: nat, children: seq<nat>)

  function Ids(buf: bytes, offset: nat, count: nat): (ids: seq<nat>)
    requires offset + 8 * count <= |buf|
    ensures |ids| == count
    ensures forall i :: 0 <= i < count ==> ids[i] == FromLE(buf[offset + 8 * i..offset + 8 * i + 8])
  {
    seq(count, i requires 0 <= i < count => FromLE(buf[offset + 8 * i..offset + 8 * i + 8]))
  }

  /** The block an entry names, read and verified as its own id says. */
  function DataNodeOf(s: Store, e: Entry): Result<DataNode> {
    if e.NodeEntry? then Err(Format)
    else
      var buf :- ReadAllocation(s, e.index, e.size);
      BlockSizeIsLeast(e.size);
      if !IsInternal(e.block) then
        var data :- VerifyData(s, buf, e.size);
        Ok(Data(data))
      else
        var h :- VerifyTree(s, buf, e.size, BTYPE_DATA_TREE);
        Ok(XBlock(h.level, h.fourth, Ids(buf[..e.size], TREE_HEADER_SIZE, h.count)))
  }

  function ReadDataTree(s: Store, id: nat): Result<DataNode> {
    var e :- FindBlock(s, id);
    DataNodeOf(s, e)
  }

  datatype SubEntry = SubEntry(node: nat, data: nat, subNode: Option<nat>)
  datatype SubBlock = SubLeaf(entries: seq<SubEntry>) | SubIndex(children: seq<nat>)

  function SubEntryAt(buf: bytes, offset: nat): SubEntry
    requires offset + 24 <= |buf|
  {
    var sub := FromLE(buf[offset + 16..offset + 24]);
    SubEntry(FromLE(buf[offset..offset + 8]) % U32, FromLE(buf[offset + 8..offset + 16]),
             if SearchKey(sub) == 0 then None else Some(sub))
  }

  function SubEntries(buf: bytes, count: nat): (entries: seq<SubEntry>)
    requires TREE_HEADER_SIZE + 24 * count <= |buf|
    ensures |entries| == count
  {
    seq(count, i requires 0 <= i < count => SubEntryAt(buf, TREE_HEADER_SIZE + 24 * i))
  }

  function NextLevels(buf: bytes, count: nat): (children: seq<nat>)
    requires TREE_HEADER_SIZE + 16 * count <= |buf|
    ensures |children| == count
  {
    seq(count, i requires 0 <= i < count =>
      FromLE(buf[TREE_HEADER_SIZE + 16 * i + 8..TREE_HEADER_SIZE + 16 * i + 16]))
  }

  const MAX_SUBNODE_INDEX := 510
  const MAX_SUBNODE_LEAF := 340

  lemma SubEntriesFit(h: TreeHeader, size: nat)
    requires h.btype == BTYPE_SUBNODE_TREE && EntrySize(h.btype, h.level).Ok? && size <= MAX_DATA_SIZE
    requires TREE_HEADER_SIZE + h.count * EntrySize(h.btype, h.level).value <= size
    ensures h.level == 0 ==> TREE_HEADER_SIZE + 24 * h.count <= size && h.count <= MAX_SUBNODE_LEAF
    ensures h.level > 0 ==> TREE_HEADER_SIZE + 16 * h.count <= size && h.count <= MAX_SUBNODE_INDEX
  {
  }

  function SubBlockOf(s: Store, e: Entry): (r: Result<SubBlock>)
    ensures r.Ok? ==> match r.value
                      case SubLeaf(entries) => |entries| <= MAX_SUBNODE_LEAF
                      case SubIndex(children) => |children| <= MAX_SUBNODE_INDEX
  {
    if e.NodeEntry? then Err(Format)
    else
      var buf :- ReadAllocation(s, e.index, e.size);
      BlockSizeIsLeast(e.size);
      var h :- VerifyTree(s, buf, e.size, BTYPE_SUBNODE_TREE);
      SubEntriesFit(h, e.size);
      if h.fourth != 0 then Err(Format)
      else if h.level > 0 then Ok(SubIndex(NextLevels(buf[..e.size], h.count)))
      else Ok(SubLeaf(SubEntries(buf[..e.size], h.count)))
  }

  function ReadSubnodeBlock(s: Store, id: nat): Result<SubBlock> {
    var e :- FindBlock(s, id);
    SubBlockOf(s, e)
  }
}
