/**
 Reading a stored tree of built blocks back: whatever its shape, the reader gives the payloads of its leaves in
 order, exactly when its guards allow the shape.
 */
module BlockRoundTrip {
  import opened Wire
  import opened Limits
  import opened Traversal
  import opened PageTree
  import opened BlockStore
  import opened BlockWalk
  import opened BlockOrder
  import opened BlockBuilder
  import Encode

  /** A node's data as it was put into blocks; `entry` is what the block B-tree has for each. */
  datatype Plan =
    | Piece(entry: Entry, signature: nat, data: bytes)
    | Branch(entry: Entry, signature: nat, level: nat, totalSize: nat, children: seq<Plan>)

  function IdOf(p: Plan): nat {
    if p.entry.BlockEntry? then p.entry.block else 0
  }

  function IdsOf(ps: seq<Plan>): (ids: seq<nat>)
    ensures |ids| == |ps|
  {
    if ps == [] then [] else [IdOf(ps[0])] + IdsOf(ps[1..])
  }

  /** Every block of the plan is in the file and found through the block B-tree. */
  ghost predicate Stored(s: Store, p: Plan)
    decreases p
  {
    && FindBlock(s, IdOf(p)) == Ok(p.entry)
    && match p
       case Piece(e, signature, data) => StoresData(s, e, data, signature)
       case Branch(e, signature, level, totalSize, children) =>
         StoresDataTree(s, e, IdsOf(children), level, totalSize, signature) && StoredAll(s, children)
  }

  ghost predicate StoredAll(s: Store, ps: seq<Plan>)
    decreases ps
  {
    ps == [] || (Stored(s, ps[0]) && StoredAll(s, ps[1..]))
  }

  /** The data of the leaves, left to right. */
  function Payloads(p: Plan): seq<bytes>
    decreases p
  {
    match p
    case Piece(_, _, data) => [data]
    case Branch(_, _, _, _, children) => PayloadsAll(children)
  }

  function PayloadsAll(ps: seq<Plan>): seq<bytes>
    decreases ps
  {
    if ps == [] then [] else Payloads(ps[0]) + PayloadsAll(ps[1..])
  }

  /** The search keys of the tree blocks, each before those below it. */
  function TreeKeys(p: Plan): seq<nat>
    decreases p
  {
    match p
    case Piece(_, _, _) => []
    case Branch(_, _, _, _, children) => [SearchKey(IdOf(p))] + TreeKeysAll(children)
  }

  function TreeKeysAll(ps: seq<Plan>): seq<nat>
    decreases ps
  {
    if ps == [] then [] else TreeKeys(ps[0]) + TreeKeysAll(ps[1..])
  }

  /** The levels of tree blocks. */
  function Height(p: Plan): nat
    decreases p
  {
    match p
    case Piece(_, _, _) => 0
    case Branch(_, _, _, _, children) => 1 + HeightAll(children)
  }

  function HeightAll(ps: seq<Plan>): nat
    decreases ps
  {
    if ps == [] then 0 else Max(Height(ps[0]), HeightAll(ps[1..]))
  }

  /** A stored plan's node, as the reader resolves its id. */
  lemma PlanReads(s: Store, p: Plan)
    requires Stored(s, p)
    ensures ReadDataTree(s, IdOf(p))
         == match p
            case Piece(_, _, data) => Ok(Data(data))
            case Branch(_, _, level, totalSize, children) => Ok(XBlock(level, totalSize, IdsOf(children)))
    ensures IsInternal(IdOf(p)) <==> p.Branch?
  {
    hide FindBlock, DataNodeOf, StoresData, StoresDataTree, StoredAll;
    StoredKind(s, p);
    match p
    case Piece(e, signature, data) => DataReadsBack(s, e, data, signature);
    case Branch(e, signature, level, totalSize, children) =>
      DataTreeReadsBack(s, e, IdsOf(children), level, totalSize, signature);
  }

  lemma StoredKind(s: Store, p: Plan)
    requires Stored(s, p)
    ensures p.entry.BlockEntry? && (IsInternal(p.entry.block) <==> p.Branch?)
  {
    hide FindBlock, Stores, DataBlock, DataTreeBlock, Encode.EncodeBlock, StoredAll;
  }

  // --- the trace of a stored plan -----------------------------------------------------------

  /** Whether a plan whose root is at `depth` stays within the depth ceiling. */
  predicate Shallow(height: nat, depth: nat, ceiling: nat) {
    height == 0 || depth + height <= ceiling + 1
  }

  lemma PieceTrace(s: Store, p: Plan, depth: nat)
    requires Stored(s, p) && p.Piece?
    ensures Trace(DataGraph(s), IdOf(p), depth) == [Emit(p.data)]
  {
    hide Stored, ReadDataTree;
    PlanReads(s, p);
    assert EmitAll([p.data]) == [Emit(p.data)];
  }

  lemma BranchTrace(s: Store, p: Plan, depth: nat)
    requires Stored(s, p) && p.Branch?
    ensures Trace(DataGraph(s), IdOf(p), depth)
         == if depth > s.limits.maxXblockDepth then [Refuse(Limit)]
            else [Enter(SearchKey(IdOf(p)))] + TraceAll(DataGraph(s), IdsOf(p.children), depth + 1)
  {
    hide Stored, ReadDataTree, TraceAll;
    PlanReads(s, p);
    var below := TraceAll(DataGraph(s), IdsOf(p.children), depth + 1);
    assert EmitAll<bytes>([]) + below == below;
  }

  /** Nothing in `events` is refused exactly when `shallow`; then they enter `keys` and emit `payloads`. */
  ghost predicate Tells(events: seq<Event<bytes>>, shallow: bool, keys: seq<nat>, payloads: seq<bytes>) {
    && (NoRefusal(events) <==> shallow)
    && (shallow ==> Enters(events) == keys && Emitted(events) == payloads)
  }

  lemma TellsConcat(
      a: seq<Event<bytes>>, b: seq<Event<bytes>>, shallow: bool, more: bool, keys: seq<nat>, moreKeys: seq<nat>,
      payloads: seq<bytes>, morePayloads: seq<bytes>)
    requires Tells(a, shallow, keys, payloads) && Tells(b, more, moreKeys, morePayloads)
    ensures Tells(a + b, shallow && more, keys + moreKeys, payloads + morePayloads)
  {
    EntersConcat(a, b);
    EmittedConcat(a, b);
    NoRefusalConcat(a, b);
    hide NoRefusal, Enters, Emitted;
  }

  lemma NoRefusalConcat(a: seq<Event<bytes>>, b: seq<Event<bytes>>)
    ensures NoRefusal(a + b) <==> NoRefusal(a) && NoRefusal(b)
  {
    var all := a + b;
    assert forall i :: 0 <= i < |a| ==> all[i] == a[i];
    assert forall i :: 0 <= i < |b| ==> all[|a| + i] == b[i];
  }

  lemma TellsOne(key: nat, data: bytes)
    ensures Tells([], true, [], []) && Tells([Refuse(Limit)], false, [], [])
    ensures Tells([Enter(key)], true, [key], []) && Tells([Emit(data)], true, [], [data])
  {
    var refuse: seq<Event<bytes>>, enter: seq<Event<bytes>>, emit: seq<Event<bytes>> :=
      [Refuse(Limit)], [Enter(key)], [Emit(data)];
    assert refuse[0].Refuse?;
    assert enter[1..] == [] && emit[1..] == [];
  }

  lemma {:induction false} PlanTrace(s: Store, p: Plan, depth: nat)
    requires Stored(s, p)
    ensures Tells(Trace(DataGraph(s), IdOf(p), depth), Shallow(Height(p), depth, s.limits.maxXblockDepth),
                  TreeKeys(p), Payloads(p))
    decreases p
  {
    hide Tells, Trace, TraceAll, DataGraph, StoresData, StoresDataTree, FindBlock;
    match p
    case Piece(_, _, data) =>
      PieceTrace(s, p, depth);
      TellsOne(0, data);
    case Branch(_, _, _, _, children) =>
      BranchTrace(s, p, depth);
      TellsOne(SearchKey(IdOf(p)), []);
      if depth <= s.limits.maxXblockDepth {
        PlanTraceAll(s, children, depth + 1);
        var below := TraceAll(DataGraph(s), IdsOf(children), depth + 1);
        var shallow := Shallow(HeightAll(children), depth + 1, s.limits.maxXblockDepth);
        TellsConcat([Enter(SearchKey(IdOf(p)))], below, true, shallow,
                    [SearchKey(IdOf(p))], TreeKeysAll(children), [], PayloadsAll(children));
        assert [] + PayloadsAll(children) == PayloadsAll(children);
      } else {
        TellsRefused(TreeKeys(p), Payloads(p));
      }
  }

  lemma TellsRefused(keys: seq<nat>, payloads: seq<bytes>)
    ensures Tells([Refuse(Limit)], false, keys, payloads)
  {
    TellsOne(0, []);
  }

  lemma {:induction false} PlanTraceAll(s: Store, ps: seq<Plan>, depth: nat)
    requires StoredAll(s, ps)
    ensures Tells(TraceAll(DataGraph(s), IdsOf(ps), depth), Shallow(HeightAll(ps), depth, s.limits.maxXblockDepth),
                  TreeKeysAll(ps), PayloadsAll(ps))
    decreases ps
  {
    hide Tells, Trace, DataGraph, Stored;
    if ps == [] {
      TellsOne(0, []);
    } else {
      var g, max := DataGraph(s), s.limits.maxXblockDepth;
      PlanTrace(s, ps[0], depth);
      PlanTraceAll(s, ps[1..], depth);
      assert IdsOf(ps)[1..] == IdsOf(ps[1..]);
      TellsConcat(Trace(g, IdOf(ps[0]), depth), TraceAll(g, IdsOf(ps[1..]), depth),
                  Shallow(Height(ps[0]), depth, max), Shallow(HeightAll(ps[1..]), depth, max),
                  TreeKeys(ps[0]), TreeKeysAll(ps[1..]), Payloads(ps[0]), PayloadsAll(ps[1..]));
    }
  }

  // --- reading it back ------------------------------------------------------------------------

  /**
   A stored node reads back as the data of its leaves in order, whatever its shape, if and only if it is one block,
   or its claimed and its actual size, its height and its number of tree blocks are within the ceilings and no tree
   block is used twice.
   */
  lemma StoredNodeReads(s: Store, p: Plan)
    requires s.limits.Valid() && Stored(s, p)
    ensures var r := DataBlocks(s, IdOf(p));
            && (r.Ok? <==> || p.Piece?
                           || (p.totalSize <= s.limits.maxAllocation
                               && Height(p) <= s.limits.maxXblockDepth
                               && Distinct(TreeKeys(p)) && |TreeKeys(p)| <= s.limits.maxItems
                               && Total(Length, Payloads(p)) <= s.limits.maxAllocation))
            && (r.Ok? ==> r.value == Payloads(p))
  {
    hide Trace, TraceAll, Flatten, Admits, Stored, ReadDataTree, DataGraph, StoredAll, FindBlock;
    PlanReads(s, p);
    if p.Branch? {
      StoredChildren(s, p);
      hide DataBlocks;
      var g, id := DataGraph(s), IdOf(p);
      var keys, below := TreeKeysAll(p.children), TraceAll(g, IdsOf(p.children), 2);
      PlanTraceAll(s, p.children, 2);
      DataBlocksIff(s, id);
      if Height(p) <= s.limits.maxXblockDepth {
        BranchFlatten(s, p);
      }
      AdmitsHead(s.limits.maxItems, {}, TreeKeys(p));
      AdmitsIsDistinct(s.limits.maxItems, TreeKeys(p));
      assert TreeKeys(p)[1..] == keys && {} + {SearchKey(id)} == {SearchKey(id)};
    }
  }

  lemma StoredChildren(s: Store, p: Plan)
    requires Stored(s, p) && p.Branch?
    ensures StoredAll(s, p.children)
  {
  }

  lemma AdmitsIsDistinct(ceiling: nat, keys: seq<nat>)
    ensures Admits(ceiling, {}, keys) <==> Distinct(keys) && |keys| <= ceiling
  {
  }

  /** The flatten of a stored branch that is not too deep. */
  lemma BranchFlatten(s: Store, p: Plan)
    requires s.limits.Valid() && Stored(s, p) && p.Branch? && Height(p) <= s.limits.maxXblockDepth
    ensures Flatten(DataGraph(s), IdOf(p), 1) == Payloads(p)
  {
    hide Trace, Flatten, Stored, DataGraph, NoRefusal, Enters, Emitted;
    PlanTrace(s, p, 1);
    TraceEmitsFlatten(DataGraph(s), IdOf(p), 1);
  }

  // --- a node larger than the ceiling -------------------------------------------------------------

  function OneEntry(): Entry {
    BlockEntry(4, 0, 2, 1)
  }

  function OnePage(index: nat): Result<Page> {
    Ok(Leaf([OneEntry()]))
  }

  function ZeroCrc(b: bytes): nat {
    0
  }

  /** A store of one block of two bytes, read under a ceiling of one byte. */
  function OneBlockStore(file: bytes): Store {
    var limits := Limits(8, 2, 2, 8, 1, 0x1_0000, 16, 16, 16);
    Store(file, Tree(OnePage, false, 0, limits), ZeroCrc, Encode.NONE, limits)
  }

  lemma OneBlockFound(file: bytes)
    ensures FindBlock(OneBlockStore(file), 4) == Ok(OneEntry())
  {
    var t := OneBlockStore(file).bbt;
    assert ReadPage(t, 0) == Ok(Leaf([OneEntry()]));
    hide ReadPage;
    assert Lookup([OneEntry()], 4) == Ok(OneEntry());
  }

  lemma OneBlockBuilt() returns (file: bytes)
    ensures StoresData(OneBlockStore(file), OneEntry(), [1, 2], 0)
  {
    var data: bytes := [1, 2];
    file := OneFile(data);
    hide Sealed, DataBlock;
    assert BlockSize(2) == Ok(64);
    assert OneBlockStore(file).file[0..0 + |file|] == file;
    assert Encode.EncodeBlock(data, Encode.NONE, SearchKey(4) % U32) == Ok(data);
    assert Stores(OneBlockStore(file), OneEntry(), file);
  }

  lemma OneFile(data: bytes) returns (file: bytes)
    requires |data| == 2
    ensures DataBlock(data, 4, 0, ZeroCrc) == Ok(file) && BlockSize(2) == Ok(|file|)
  {
    FieldWidths();
    file := DataBlock(data, 4, 0, ZeroCrc).value;
    SealedParts(data, 4, 0, ZeroCrc);
  }

  /** The ceiling on allocation does not keep a node of one block from being read. */
  lemma CeilingExceeded() returns (s: Store, id: nat)
    ensures s.limits.Valid() && DataBlocks(s, id).Ok?
    ensures Total(Length, DataBlocks(s, id).value) > s.limits.maxAllocation
  {
    hide StoresData, DataBlocks, FindBlock;
    var data: bytes := [1, 2];
    var file := OneBlockBuilt();
    OneBlockFound(file);
    s, id := OneBlockStore(file), 4;
    StoredNodeReads(s, Piece(OneEntry(), 0, data));
    LengthOfOne(data);
  }
}
