# Proofs about the PST reader's binary formats

This project models the binary-format engine of pypstreader, a reader of Outlook personal stores, in Dafny, and
proves what its parts promise. `dafny verify dfyconfig.toml` checks all of it.

- **LZFu** (`Lz*.dfy`; [MS-OXRTFCP] sections 2.1.3.1, 2.2.3.2 and 2.3.3.2). The decompressor over its circular
  array refines flat LZ77. The compressor's search, which changes the dictionary while scanning it, is in lockstep
  with the input and does not depend on its skipping shortcut. The documented round trip, decompressing what was
  compressed, is false: `LzCounterexample` has a concrete body and `LzCodec.RoundTrip` the exact condition.
- **Page B-trees** (`Traversal.dfy`, `WalkLog.dfy`, `Bisect.dfy`, `Ordering.dfy`, `PageTree.dfy`, `PageOrder.dfy`;
  [MS-PST] section 2.2.2.7.7). Walks over an explicit stack are readings of a recursive trace; they stop on every
  graph and enter nothing twice, and lookup and walk agree on ordered trees. The page cache never shows.
- **Block trees** (`Block*.dfy`, `Encode.dfy`; [MS-PST] sections 2.2.2.8.3 and 5). Data and subnode walks against
  the recursive flatten, the allocation arithmetic, the suite's block builders inverted by the reader, the cyclic
  and the permutation coding.
- **Heaps and BTrees-on-heap** (`Heap*.dfy`; [MS-PST] sections 2.3.1 and 2.3.2). Page maps tile their block; the
  level-by-level walk is the left-to-right flatten and agrees with the lookup; the suite's builders are inverted by
  the readers.
- **Tables and multi-values** (`TableLayout.dfy`, `RowMatrix.dfy`, `MultiValue.dfy`; [MS-PST] sections 2.3.4 and
  2.3.3.4). Rows packed into blocks and addressed by bisecting, and the counted layout of multi-values.

`Wire.dfy` has bytes, refusals and little-endian fields, `Limits.dfy` the ceilings and the cycle guard. An exception
becomes one of six `Error` constructors. Code that works step by step is a method, proved against a function; the
lemmas are about the function.

Where code and documentation disagree, the model follows the code:

- `tests/rtf_compress.py:11-13` promises the round trip over random input. It fails once the dictionary is full and
  a search overwrites the slots it then compares (`LzCounterexample.RoundTripFails`).
- `src/pypstreader/ltp/table_context.py:644-648` calls `_check_offset` redundant. It refuses cells that validation
  lets through (`TableLayout.CheckOffsetRefusesIff`, with a layout in `TableLayout.CheckOffsetRefuses`).
- `src/pypstreader/ltp/table_context.py:104-108` lets only the reader's own errors escape. A table without columns
  and without regions, but with a matrix block, divides by zero (`RowMatrix.DividesByZeroIff`, `RowMatrix.DividesByZero`).
- A node of a single block is not held against the allocation ceiling (`BlockOrder.ExceedsCeilingIff`, with a store
  in `BlockRoundTrip.CeilingExceeded`).
- A multi-value of count 0 ignores the bytes that follow (`MultiValue.PrintOfParse`,
  `MultiValue.CountZeroIgnoresRest`).

## Model

| member | source | states |
|---|---|---|
| LzDictionary.RepresentsAddAll | tests/rtf_compress.py:46-51 | A ring that holds a history still holds it, extended, after any bytes are added one by one, through every wrap |
| LzDictionary.SlotIsHistory | src/pypstreader/rtf.py:180-194 | A slot below the end offset other than the write offset holds the history byte at its circular distance, so the reader never reads a slot before it was written |
| LzWriter.Dictionary.constructor | tests/rtf_compress.py:40-44 | The ring starts as the initial string, both offsets behind it |
| LzWriter.Dictionary.Add | tests/rtf_compress.py:46-51 | One byte added: buffer, write offset and saturating end offset |
| LzWriter.Dictionary.TryMatch | tests/rtf_compress.py:81-91 | The length of one try and the ring it leaves, bytes past the best so far added as they match |
| LzWriter.Dictionary.NextCandidate | tests/rtf_compress.py:93-110 | The first scan position holding the wanted byte, circularly, no candidate skipped; none only when there is none |
| LzWriter.Dictionary.FindLongestMatch | tests/rtf_compress.py:53-79 | Skipping or exhaustive, offset, length and the whole ring left behind are those of the exhaustive scan, though the scan changes the ring it scans |
| LzSearch.ScanSkips | tests/rtf_compress.py:93-110 | Jumping over positions that do not hold the first byte changes neither the result nor the ring |
| LzSearch.ScanEnds | tests/rtf_compress.py:68-79 | When no remaining position holds the first byte the scan ends with what it has |
| LzSearch.SearchLockstep | tests/rtf_compress.py:53-91 | Any search leaves the ring with exactly the consumed bytes added; its offset is written and never the write offset; among the distances no try overwrites it is the longest match, the farthest back on a tie |
| LzCompressor.DictionaryLockstep | tests/rtf_compress.py:118-154 | After every token of the compressor the ring is the initial one with the consumed input added, no byte twice and none skipped |
| LzCompressor.GreedyAdmissible | tests/rtf_compress.py:113-154 | Every emitted reference names a written slot other than the write offset the terminator needs, and the tokens consume the whole input |
| LzReader.DecompressLzfu | src/pypstreader/rtf.py:144-200 | The loop over a circular array computes flat LZ77: each reference copies byte by byte from its circular distance, overlap and wrap included, with every refusal |
| LzReader.Copy | src/pypstreader/rtf.py:186-200 | One reference, copied through the array, is the flat copy, and the array still holds the history |
| LzReader.OutputBounds | src/pypstreader/rtf.py:154-200 | From any point of the decoding, the output is within the ceiling and at most eight times the bytes consumed |
| LzTokens.PayloadDecodes | src/pypstreader/rtf.py:144-200 | Reading inverts writing for every admissible token list: runs, control bytes, terminator |
| LzTokens.PayloadLength | tests/rtf_compress.py:126-154 | A payload is at most its tokens' sizes, a control byte per eight tokens and three bytes |
| LzCompressor.CleanIffFaithful | tests/rtf_compress.py:53-91 | A token expands to the input it consumed if and only if the old slots its own search overwrote agree with the input |
| LzCompressor.GreedyExpands | tests/rtf_compress.py:118-154 | The whole token stream expands to the input if and only if every token is clean |
| LzCompressor.FarAheadIsClean | tests/rtf_compress.py:53-91 | References that start at least length - 1 slots ahead of the write offset are all clean |
| LzCompressor.UnwrappedIsFarAhead | tests/rtf_compress.py:53-91 | An input that never wraps the dictionary meets that condition |
| LzCodec.HeaderRoundTrip | src/pypstreader/rtf.py:99-116 | A packed header and payload read back as the same four fields and the same payload |
| LzCodec.WriteToken | tests/rtf_compress.py:139-146 | One token written; ring and cursor stay in lockstep with the input |
| LzCodec.WriteRun | tests/rtf_compress.py:127-150 | One run: a control byte with its eight tokens, or fewer and the terminator |
| LzCodec.CompressRtf | tests/rtf_compress.py:118-154 | The loop produces header, size, CRC and payload of the greedy token stream, or refuses fields too wide |
| LzCodec.DecompressRtf | src/pypstreader/rtf.py:119-141 | Header, size ceiling, stored form, CRC, then the decoding, each refusal in that order |
| LzCodec.DecompressedBounds | src/pypstreader/rtf.py:119-200 | No accepted value decompresses past the ceiling or past eight times its payload |
| LzCodec.CompressedSize | tests/rtf_compress.py:118-154 | A compressed payload is at most len(raw) + len(raw) / 8 + 3 bytes |
| LzCodec.RoundTrip | tests/rtf_compress.py:11-13 | Decompressing a compressed body never fails and keeps its length; it gives the body back if and only if every token is clean |
| LzCodec.RoundTripFarAhead | tests/rtf_compress.py:53-154 | The round trip under the condition on the emitted offsets and lengths |
| LzCodec.RoundTripUnwrapped | tests/rtf_compress.py:53-154 | The round trip for every body that fits the dictionary behind the initial string |
| LzCodec.StoredRoundTrip | tests/rtf_compress.py:157-159 | The stored form always comes back |
| LzCounterexample.RoundTripFails | tests/rtf_compress.py:53-91 | A 4100-byte body that the real dictionary compresses and decompresses to something else: the documented round trip does not hold |
| LzCounterexample.InitialDictionary | src/pypstreader/_rtf_dictionary.py:23-46 | The 207 bytes the dictionary starts with, each above 9 |
| LzCounterexample.StandardRoundTrip | tests/rtf_compress.py:11-13 | With the real dictionary every body of up to 3889 bytes comes back |
| Limits.VisitedSet.Add | src/pypstreader/limits.py:240-246 | A key is recorded once and only below the ceiling |
| Traversal.PushReversed | src/pypstreader/ndb/btree.py:163-179 | Children pushed last first make the stack go through them in order, then through what was below |
| Traversal.ConsumeSucceedsIff | src/pypstreader/ndb/btree.py:150-179 | A guarded walk succeeds if and only if nothing on its trace is refused, no key comes twice and both ceilings hold; it then yields the whole trace |
| Traversal.ConsumePrefix | src/pypstreader/ndb/btree.py:163-189 | A refused walk has yielded a prefix of the trace within the budget |
| Traversal.EnteredOnce | src/pypstreader/limits.py:240-246 | The keys a guarded walk enters are distinct and at most as many as the ceiling, on every graph and however the walk ends |
| Traversal.ConsumeReads | src/pypstreader/ndb/btree.py:150-179 | A walk goes through a prefix of its trace: what it enters and yields is that prefix's, and the event after it is what it refuses |
| Traversal.EntersGuarded | src/pypstreader/ndb/block.py:472-487 | One iteration enters the node's key, then whatever the children and the rest of the stack enter |
| WalkLog.LoggedStep | src/pypstreader/limits.py:240-246 | One iteration keeps the log of what was entered: guarded nodes in the trace's order, each key once, within the ceilings on number and depth |
| Traversal.PopGuarded | src/pypstreader/ndb/block.py:472-487 | One iteration of a guarded walk: depth, revisit, read, values, children |
| Traversal.TraceEmitsFlatten | src/pypstreader/ndb/block.py:446-487 | What a trace emits is the recursive left-to-right flatten |
| Bisect.BisectRight | src/pypstreader/ndb/btree.py:206-210 | The halving search lands where its specification does on any list |
| Bisect.PositionSplits | src/pypstreader/ndb/btree.py:206-210 | On a sorted list that position splits the keys up to the one sought from those above |
| PageTree.BTree.Child | src/pypstreader/ndb/btree.py:150-159 | Following a reference gives what the file gives, whatever the cache holds: depth, revisit, ceiling, then page |
| PageTree.BTree.Visit | src/pypstreader/ndb/btree.py:163-179 | One iteration of the page walk keeps the walk's remaining trace, and enters a new page or stops |
| PageTree.BTree.Pages | src/pypstreader/ndb/btree.py:163-179 | The explicit stack computes the guarded pre-order walk on every graph and always stops, whatever calls came before; however it ends, no offset is entered twice, and each page yielded is the one at its logged offset |
| PageTree.BTree.Entries | src/pypstreader/ndb/btree.py:181-189 | The leaf entries of that walk, counted before they are yielded |
| PageTree.BTree.FindKey | src/pypstreader/ndb/btree.py:193-212 | The loop computes the one-path descent, whatever calls came before; however it ends, it follows a chain of at most depth ceiling + 1 distinct pages |
| PageOrder.LeafEntriesIff | src/pypstreader/ndb/btree.py:181-189 | An iteration yields a prefix of the plain leaf list within the ceiling, all of it exactly when neither walk nor ceiling refuses |
| PageOrder.OrderedIsSorted | src/pypstreader/ndb/btree.py:163-189 | An ordered tree lists its entries in ascending key order inside its interval |
| PageOrder.FindIsLookup | src/pypstreader/ndb/btree.py:193-212 | On an ordered tree the descent finds the first entry the leaves list for the key, or nothing, wherever the walk may go |
| PageOrder.FindAgreesWithWalk | src/pypstreader/ndb/btree.py:163-212 | Lookup and iteration agree on every ordered tree the iteration gets through, not found exactly when nothing is listed, and the listing ascends |
| PageOrder.FindIsSound | src/pypstreader/ndb/btree.py:193-212 | On any page graph a found entry has the key and lies in a leaf reached over at most depth ceiling + 1 distinct pages |
| BlockStore.BlockSizeIsLeast | src/pypstreader/ndb/block.py:167-180 | The allocation is the least multiple of 64 holding data and trailer |
| BlockBuilder.DataBlockReads | tests/corrupt.py:319-368 | A built data block is accepted exactly when its id is no internal one, whatever its signature, and reads as its payload decoded |
| BlockBuilder.TreeBlockReads | tests/corrupt.py:319-431 | A built tree block is accepted exactly when its id is an internal one, and its header reads back |
| BlockBuilder.DataReadsBack | src/pypstreader/ndb/block.py:408-420 | Data encoded by any known method and built into a stored block reads back as it was |
| BlockBuilder.DataTreeReadsBack | src/pypstreader/ndb/block.py:408-420 | A stored XBLOCK reads back as its level, size and children in order |
| BlockBuilder.SubnodeLeafReadsBack | src/pypstreader/ndb/block.py:422-442 | A stored SLBLOCK reads back as its entries in order, ids cut to 32 bits and null subnodes recognised |
| BlockBuilder.SubnodeIndexReadsBack | src/pypstreader/ndb/block.py:422-442 | A stored SIBLOCK reads back as the next level's blocks in order |
| BlockStore.TreeTrailerPlace | src/pypstreader/ndb/block.py:375-400 | A tree block's trailer never overlaps the bytes under its CRC; it ends the allocation exactly when cb and the implied size agree modulo 64 |
| BlockStore.SearchKeyKeepsInternal | src/pypstreader/ndb/ids.py:270-281 | The search key keeps the internal bit |
| BlockWalk.InternalIffTree | src/pypstreader/ndb/block.py:408-420 | An id resolves to a tree block if and only if it has the internal bit |
| BlockWalk.FoundKey | src/pypstreader/ndb/block.py:404-406 | A found entry has the key it was sought under, on any page graph |
| BlockWalk.DataGraphSound | src/pypstreader/ndb/block.py:472-487 | Ids the walk does not guard have no children, so pushing children without asking for a guard is safe |
| BlockWalk.BlockReader.ReadDataBlocks | src/pypstreader/ndb/block.py:446-487 | The explicit stack that guards internal ids only computes the guarded reading of the recursive trace, on every graph, and stops; however it ends, no tree block is entered twice or too deep |
| BlockWalk.BlockReader.ReadSubnodeTree | src/pypstreader/ndb/block.py:493-516 | The same for subnodes, filling a map in which the first entry of an id wins |
| BlockOrder.DataBlocksIff | src/pypstreader/ndb/block.py:446-487 | A tree's blocks are assembled if and only if no read, depth, revisit or size is refused, and are then the recursive in-order leaves |
| BlockOrder.SingleBlock | src/pypstreader/ndb/block.py:458-460 | A node that is one block is returned without any ceiling consulted |
| BlockOrder.ExceedsCeilingIff | src/pypstreader/ndb/block.py:446-487 | The assembled data exceeds the allocation ceiling if and only if the id is no internal one and its entry's size does |
| BlockOrder.DataWithinCeiling | src/pypstreader/ndb/block.py:446-487 | No node's data exceeds the allocation ceiling or one block, whichever is larger |
| BlockOrder.SubnodeTreeIff | src/pypstreader/ndb/block.py:493-516 | The subnode walk succeeds if and only if no guard refuses, and maps each node id to its first entry in the recursive list |
| BlockOrder.SubnodeBound | src/pypstreader/ndb/block.py:493-516 | Under any depth ceiling a subnode tree never holds more entries than full blocks of that many levels, not even while being refused |
| BlockOrder.SubnodeBoundAtTwo | src/pypstreader/limits.py:132-137 | At two levels that is 510 * 340 = 173400 |
| BlockRoundTrip.StoredNodeReads | src/pypstreader/ndb/block.py:446-487 | A stored tree of built blocks of any shape, found through the block B-tree, reads back as its leaves' data in order if and only if its sizes, height and tree blocks are within the ceilings and none is used twice |
| BlockRoundTrip.CeilingExceeded | src/pypstreader/ndb/block.py:458-460 | A store with a node larger than the allocation ceiling that is read all the same |
| Encode.KeyFacts | src/pypstreader/_tables.py:1-90 | I and R are inverse permutations of the bytes and S is its own inverse |
| Encode.PermuteRoundTrip | src/pypstreader/encode.py:49-60 | Permuting and unpermuting are inverse both ways |
| Encode.CyclicAt | src/pypstreader/encode.py:63-90 | Byte i is the byte transform under the key advanced i times, modulo 2^16 |
| Encode.EncodeDecodeCyclic | src/pypstreader/encode.py:63-90 | The byte loop computes the transform, refusing a negative key |
| Encode.CyclicInvolution | src/pypstreader/encode.py:63-90 | Applied twice under one key the transform is the identity, for every buffer and key |
| Encode.EncodeBlockDecodes | src/pypstreader/encode.py:93-106 | What is encoded by any known method decodes to itself |
| Encode.DecodeBlockInjective | src/pypstreader/encode.py:93-106 | Decoding keeps the length and loses nothing |
| Heap.PartsRoundTrip | src/pypstreader/ltp/heap.py:193-227 | An id built from an index and a block gives both back and is valid |
| Heap.PartsComplete | src/pypstreader/ltp/heap.py:187-227 | Every valid id is built from its own index and block |
| Heap.ParsePageMap | src/pypstreader/ltp/heap.py:434-461 | The loop accepts exactly the maps with ascending offsets inside the block and the right cFree |
| Heap.PageMapTiles | src/pypstreader/ltp/heap.py:434-461 | An accepted map's items, joined in order, are the block from the first offset to the last, and cFree counts the empty ones |
| Heap.ItemsDisjoint | src/pypstreader/ltp/heap.py:434-461 | Items of different indices never share a byte |
| Heap.ItemIsSlice | src/pypstreader/ltp/heap.py:465-487 | Every item got is a nonempty slice of its block between its two offsets |
| Heap.ItemsOfOneBlockDisjoint | src/pypstreader/ltp/heap.py:465-487 | Two items got from one block are disjoint slices in index order |
| Heap.HeapNode.Open | src/pypstreader/ltp/heap.py:358-375 | A heap opens if and only if it has a block and a header in it |
| Heap.HeapNode.PageMapOf | src/pypstreader/ltp/heap.py:422-431 | The cached and counted page map is the parsed one, refused early only in a heap over its ceiling |
| Heap.HeapNode.Get | src/pypstreader/ltp/heap.py:465-487 | An item is a function of the blocks alone, whatever calls came before, unless the heap is over its ceiling |
| HeapTree.Reader.Open | src/pypstreader/ltp/tree.py:119-123 | The tree at an item opens exactly as its header says, or a heap over its ceiling is refused |
| HeapTree.Reader.ReadLevel | src/pypstreader/ltp/tree.py:186-192 | One level's pages read in order give the next level's pages, or the first refusal, or a heap over its ceiling is refused |
| HeapTree.Reader.ReadEntries | src/pypstreader/ltp/tree.py:175-198 | The level-by-level loop computes its specification, the records listed before a refusal included; a heap over its ceiling may be refused earlier, after a prefix of them |
| HeapTree.Reader.FindValue | src/pypstreader/ltp/tree.py:204-227 | The descent loop computes the one-path lookup, or a heap over its ceiling is refused |
| HeapOrder.FlattenLevel | src/pypstreader/ltp/tree.py:184-192 | One level down, the pages hold the same records in the same order |
| HeapOrder.EntriesIff | src/pypstreader/ltp/tree.py:175-198 | On any heap the level-by-level walk gets through if and only if every page reads, none is reached twice and the ceilings hold, and then lists the recursive left-to-right flatten |
| HeapOrder.OrderedIsSorted | src/pypstreader/ltp/tree.py:175-198 | An ordered tree lists its records in ascending key order |
| HeapOrder.FindFromIsValue | src/pypstreader/ltp/tree.py:204-227 | From any page of an ordered tree the descent returns the value listed below it for the key, or nothing |
| HeapOrder.FindAgreesWithEntries | src/pypstreader/ltp/tree.py:175-227 | Lookup and listing agree on every ordered tree the listing gets through |
| HeapOrder.FindIsSound | src/pypstreader/ltp/tree.py:204-227 | On any heap a returned value is in a leaf reached over one distinct page per level |
| HeapBuilder.HeapBlock | tests/corrupt.py:975-999 | The loop packs header, items, padding and page map, or refuses offsets wider than 16 bits |
| HeapBuilder.BlockAccepted | tests/corrupt.py:967-999 | The reader accepts the page map of every block built, with the builder's own offsets |
| HeapBuilder.BlockReads | tests/corrupt.py:940-999 | An id built for item i of any built block, in any place of a heap, reads back item i, and is refused exactly when that item is empty |
| HeapBuilder.BthHeap | tests/corrupt.py:1026-1060 | The loops place leaves, index levels, root and header as specified |
| HeapRoundTrip.ChunksJoin | tests/corrupt.py:1022-1023 | Chunks joined are the list |
| HeapRoundTrip.LeafRoundTrip | tests/corrupt.py:1012-1014 | A built leaf page reads as its records |
| HeapRoundTrip.IndexRoundTrip | tests/corrupt.py:1017-1019 | A built index page reads as its pointers |
| HeapRoundTrip.IndexesRead | tests/corrupt.py:1052-1057 | A level placed on one that reads back reads back |
| HeapRoundTrip.TreeHeapReads | tests/corrupt.py:1026-1060 | For every fanout and number of levels a built heap opens as built, and its listing is exactly the pairs if and only if the items fit 11-bit indices and the ceilings hold |
| HeapLookup.TreeHeapFinds | tests/test_tree.py:233-244 | In a heap built over ascending pairs every lookup answers what the pairs say |
| HeapLookup.BuiltFits | tests/corrupt.py:967-1004 | A built heap counts as many allocations as it has items |
| HeapLookup.ReadBack | tests/test_tree.py:233-249 | Building, opening and listing, end to end through the classes, gives the pairs back |
| TableLayout.CheckOffsetRefusesIff | src/pypstreader/ltp/table_context.py:622-651 | The check when a cell is read refuses exactly the validated 4-byte-region cells that overlap the row header and are not its own two integers |
| TableLayout.CheckOffsetRefuses | src/pypstreader/ltp/table_context.py:641-651 | A layout validation accepts, with a cell the check refuses |
| TableLayout.ExistenceBitRefusesIff | src/pypstreader/ltp/table_context.py:221-230 | A validated column's bit lies past the bitmap exactly on the boundary validation lets through |
| TableLayout.CellInRow | src/pypstreader/ltp/table_context.py:319-381 | Every cell that is read lies inside the row before its bitmap |
| TableLayout.NoWidthIff | src/pypstreader/ltp/table_context.py:319-338 | A valid layout has rows of no width exactly when it has no columns and no regions |
| RowMatrix.RowsCount | src/pypstreader/ltp/table_context.py:561 | A block holds the floor of its length by the width |
| RowMatrix.RowIsSlice | src/pypstreader/ltp/table_context.py:574-582 | The row bisecting finds is a slice of one block and the row of that number among all rows of all blocks, ragged and empty blocks included |
| RowMatrix.DividesByZeroIff | src/pypstreader/ltp/table_context.py:552-572 | With a valid layout, opening the matrix fails by division by zero exactly when a block belongs to a table without columns and regions |
| RowMatrix.DividesByZero | src/pypstreader/ltp/table_context.py:552-572 | A layout validation accepts, with a matrix that cannot be opened |
| RowMatrix.RowsHaveWidth | src/pypstreader/ltp/table_context.py:552-582 | Every accepted row is exactly as wide as its layout and has room for its header |
| RowMatrix.TableContext.ReadMatrix | src/pypstreader/ltp/table_context.py:552-572 | The matrix is read once and accepted exactly when its checks pass, in their order |
| RowMatrix.TableContext.RowCount | src/pypstreader/ltp/table_context.py:541-545 | The row count is the number of rows of all blocks |
| RowMatrix.TableContext.RowBytes | src/pypstreader/ltp/table_context.py:574-586 | Row i is the i-th row of all blocks, refused exactly outside their number |
| RowMatrix.TableContext.AllRowBytes | src/pypstreader/ltp/table_context.py:588-592 | The rows in matrix order are all rows of all blocks |
| MultiValue.VariableItems | src/pypstreader/ltp/prop_type.py:465-491 | The loop computes the parse, with every refusal |
| MultiValue.ParseOfPrint | tests/test_prop_type.py:140-148 | Every printable list within the ceiling parses back to itself |
| MultiValue.PrintOfParse | src/pypstreader/ltp/prop_type.py:465-491 | Printing what was parsed gives the buffer back if and only if the count is not 0 or nothing follows it |
| MultiValue.CountZeroIgnoresRest | src/pypstreader/ltp/prop_type.py:475-482 | A buffer of count 0 with a byte behind it parses and prints as something else |
| MultiValue.CutAtNul | src/pypstreader/ltp/prop_type.py:405-420 | The search that skips odd hits cuts the text in front of its first aligned NUL unit |
| MultiValue.TextIsUnique | src/pypstreader/ltp/prop_type.py:405-420 | There is only one such cut |

## Left out

- Files, `struct` and the operating system: a file is a fixed sequence of bytes, a page tree a fixed function from
  offset to page or refusal; fields are packed little-endian by `Wire.LE`.
- The page parser's own field checks (`src/pypstreader/ndb/page.py`) apart from page level and entry kind, and
  header and root validation: one-branch checks.
- CRC-32: a function the lemmas hold for whatever it is. Code pages and UTF-16: `MultiValue.CutAtNul` stops before
  the text is decoded.
- Generators: an iteration is modelled as run to its end, with the values yielded by then and the refusal that ended
  it, if any.
- PageOrder.FindAgreesWithWalk: for trees the iteration gets through; where it meets a ceiling there is no listing
  to compare with.
- HeapBuilder.HeapBlock: the overrides that write false counts, offsets or signatures are not modelled.
- BlockBuilder.DataBlockReads: likewise without the overrides; the signature, which no reader checks, is a parameter.
- Heap fill levels, `get_hnid` and the values behind a cell's reference, fixed-size multi-values, property types
  and their scalar decoders.
- The row index of a table, which is a BTree-on-heap, and the decoding of a row's cells beyond where they lie.
- Folders, messages, attachments, named properties, mail output, command line, debug views, the mutation families
  and the rest of the test suite.
- Bit layouts of node ids, page ids and references other than the internal bit and the search key: shifts and masks.
- Exact texts of exceptions.
- Running time and memory.
