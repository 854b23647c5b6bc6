/** What the block walks compute: the recursive flatten of the tree, exactly when its guards allow it. */
module BlockOrder {
  import opened Wire
  import opened Limits
  import opened Traversal
  import opened PageTree
  import opened BlockStore
  import opened BlockWalk

  // --- data trees --------------------------------------------------------------------------

  lemma FlattenOfTree(s: Store, id: nat)
    requires ReadDataTree(s, id).Ok? && 0 < s.limits.maxXblockDepth
    ensures Flatten(DataGraph(s), id, 1)
         == match ReadDataTree(s, id).value
            case Data(data) => [data]
            case XBlock(_, _, children) => FlattenAll(DataGraph(s), children, 2)
  {
    InternalIffTree(s, id);
    hide ReadDataTree;
    var g := DataGraph(s);
    match ReadDataTree(s, id).value
    case Data(data) =>
      assert g.read(id) == Ok(Step([data], []));
    case XBlock(_, _, children) =>
      assert g.read(id) == Ok(Step([], children));
  }

  /**
   The blocks of a tree: on every graph the walk stops, and it succeeds exactly when the claimed size is within
   the ceiling, no read and no depth is refused, no internal block is entered twice and the bytes stay within
   the ceiling. The result is then the left-to-right list of the recursive flatten.
   */
  lemma DataBlocksIff(s: Store, id: nat)
    requires s.limits.Valid() && ReadDataTree(s, id).Ok? && ReadDataTree(s, id).value.XBlock?
    ensures var root, g := ReadDataTree(s, id).value, DataGraph(s);
            var below := TraceAll(g, root.children, 2);
            && (DataBlocks(s, id).Ok?
                <==> && root.totalSize <= s.limits.maxAllocation
                     && NoRefusal(below)
                     && Admits(s.limits.maxItems, {SearchKey(id)}, Enters(below))
                     && Total(Length, Flatten(g, id, 1)) <= s.limits.maxAllocation)
            && (DataBlocks(s, id).Ok? ==> DataBlocks(s, id).value == Flatten(g, id, 1))
  {
    hide ReadDataTree, TraceAll, FlattenAll, Flatten, Admits;
    var root, g := ReadDataTree(s, id).value, DataGraph(s);
    var below := TraceAll(g, root.children, 2);
    ConsumeSucceedsIff(s.limits.maxItems, s.limits.maxAllocation, Length, below, {SearchKey(id)}, 0);
    TraceAllEmitsFlatten(g, root.children, 2);
    FlattenOfTree(s, id);
  }

  /** A node that is one data block is returned as it is: no ceiling on allocation is consulted. */
  lemma SingleBlock(s: Store, id: nat)
    requires 0 < s.limits.maxXblockDepth && ReadDataTree(s, id).Ok? && ReadDataTree(s, id).value.Data?
    ensures DataBlocks(s, id) == Ok([ReadDataTree(s, id).value.data])
    ensures DataBlocks(s, id).value == Flatten(DataGraph(s), id, 1)
    ensures FindBlock(s, id).value.BlockEntry?
    ensures |ReadDataTree(s, id).value.data| == FindBlock(s, id).value.size <= MAX_DATA_SIZE
  {
    FlattenOfTree(s, id);
    DataLength(s, FindBlock(s, id).value);
  }

  lemma DataLength(s: Store, e: Entry)
    requires DataNodeOf(s, e).Ok? && DataNodeOf(s, e).value.Data?
    ensures e.BlockEntry? && |DataNodeOf(s, e).value.data| == e.size <= MAX_DATA_SIZE
  {
    hide VerifyTree, UnpackTrailer;
    var buf := ReadAllocation(s, e.index, e.size).value;
    var key := SearchKey(UnpackTrailer(buf, |buf| - TRAILER_SIZE).value.block) % U32;
    assert DataNodeOf(s, e).value.data == Encode.DecodeBlock(buf[..e.size], s.cryptMethod, key).value;
    Encode.DecodeBlockInjective(buf[..e.size], buf[..e.size], s.cryptMethod, key);
  }

  /**
   The ceiling on allocation is exceeded exactly by a node that is one data block larger than the ceiling, which its
   id and its entry in the block B-tree tell before anything is read.
   */
  lemma ExceedsCeilingIff(s: Store, id: nat)
    requires s.limits.Valid() && DataBlocks(s, id).Ok?
    ensures FindBlock(s, id).Ok? && FindBlock(s, id).value.BlockEntry?
    ensures Total(Length, DataBlocks(s, id).value) > s.limits.maxAllocation
            <==> !IsInternal(id) && FindBlock(s, id).value.size > s.limits.maxAllocation
    ensures !IsInternal(id) ==> Total(Length, DataBlocks(s, id).value) == FindBlock(s, id).value.size <= MAX_DATA_SIZE
  {
    InternalIffTree(s, id);
    if ReadDataTree(s, id).value.Data? {
      SingleBlock(s, id);
      hide ReadDataTree;
      LengthOfOne(ReadDataTree(s, id).value.data);
    } else {
      DataBlocksIff(s, id);
      DataNodeShape(s, FindBlock(s, id).value);
    }
  }

  lemma LengthOfOne(data: bytes)
    ensures Total(Length, [data]) == |data|
  {
    var one := [data];
    assert one[1..] == [];
    assert Total(Length, one) == Length(one[0]) + Total(Length, one[1..]);
  }

  /** No node's data is ever larger than the ceiling or one block, whichever is larger. */
  lemma DataWithinCeiling(s: Store, id: nat)
    requires s.limits.Valid() && DataBlocks(s, id).Ok?
    ensures Total(Length, DataBlocks(s, id).value) <= Max(s.limits.maxAllocation, MAX_DATA_SIZE)
  {
    hide DataBlocks, FindBlock;
    ExceedsCeilingIff(s, id);
  }

  // --- subnode trees ----------------------------------------------------------------------------

  /** The first entry of a list for a node id. */
  function FirstFor(entries: seq<SubEntry>, node: nat): (r: Option<SubEntry>)
    ensures r.None? <==> forall i :: 0 <= i < |entries| ==> entries[i].node != node
    ensures r.Some? ==> r.value in entries && r.value.node == node
  {
    if entries == [] then None
    else if entries[0].node == node then Some(entries[0])
    else FirstFor(entries[1..], node)
  }

  lemma {:induction false} AddedFirst(m: map<nat, SubEntry>, entries: seq<SubEntry>, node: nat)
    ensures var r := AddEntries(m, entries);
            && (node in r <==> node in m || FirstFor(entries, node).Some?)
            && (node in m ==> r[node] == m[node])
            && (node !in m && node in r ==> Some(r[node]) == FirstFor(entries, node))
    decreases |entries|
  {
    if entries != [] {
      AddedFirst(if entries[0].node in m then m else m[entries[0].node := entries[0]], entries[1..], node);
    }
  }

  lemma {:induction false} AddedCount(m: map<nat, SubEntry>, entries: seq<SubEntry>)
    ensures |AddEntries(m, entries)| <= |m| + |entries|
    decreases |entries|
  {
    if entries != [] {
      AddedCount(if entries[0].node in m then m else m[entries[0].node := entries[0]], entries[1..]);
    }
  }

  /**
   The subnode walk: it succeeds exactly when no read and no depth is refused, no block is entered twice and the
   entries stay within the ceiling; each node id is then mapped to its first entry in the recursive left-to-right
   list, and to nothing when it has none.
   */
  lemma SubnodeTreeIff(s: Store, id: nat, node: nat)
    ensures var g := SubGraph(s);
            var listed, r := Joined(Flatten(g, id, 1)), SubnodeTree(s, id);
            && (r.Ok? <==> && NoRefusal(Trace(g, id, 1))
                           && Admits(s.limits.maxItems, {}, Enters(Trace(g, id, 1)))
                           && Total(Count, Flatten(g, id, 1)) <= s.limits.maxItems)
            && (r.Ok? ==> (if node in r.value then Some(r.value[node]) else None) == FirstFor(listed, node))
  {
    hide Trace, Flatten, Admits;
    var g := SubGraph(s);
    ConsumeSucceedsIff(s.limits.maxItems, s.limits.maxItems, Count, Trace(g, id, 1), {}, 0);
    TraceEmitsFlatten(g, id, 1);
    AddedFirst(map[], Joined(Flatten(g, id, 1)), node);
  }

  /** The most entries a subnode tree of so many levels can hold: leaf blocks below full index blocks. */
  function MaxSubnodes(levels: nat): nat {
    if levels == 0 then 0
    else if levels == 1 then MAX_SUBNODE_LEAF
    else MAX_SUBNODE_INDEX * MaxSubnodes(levels - 1)
  }

  lemma {:induction false} LeafFits(levels: nat)
    requires levels > 0
    ensures MaxSubnodes(levels) >= MAX_SUBNODE_LEAF
  {
    if levels > 1 {
      LeafFits(levels - 1);
    }
  }

  lemma {:induction false} JoinedCount(lists: seq<seq<SubEntry>>)
    ensures |Joined(lists)| == Total(Count, lists)
  {
    if lists != [] {
      JoinedCount(lists[1..]);
    }
  }

  lemma {:induction false} TotalConcat<T>(cost: T -> nat, a: seq<T>, b: seq<T>)
    ensures Total(cost, a + b) == Total(cost, a) + Total(cost, b)
  {
    if a == [] {
      assert a + b == b;
    } else {
      assert (a + b)[0] == a[0] && (a + b)[1..] == a[1..] + b;
      TotalConcat(cost, a[1..], b);
    }
  }

  lemma ChildrenBound(s: Store, id: nat)
    requires ReadSubnodeBlock(s, id).Ok?
    ensures match ReadSubnodeBlock(s, id).value
            case SubLeaf(entries) => |entries| <= MAX_SUBNODE_LEAF
            case SubIndex(children) => |children| <= MAX_SUBNODE_INDEX
  {
    hide SubBlockOf, FindBlock;
  }

  lemma FlattenOfSub(s: Store, id: nat, depth: nat)
    requires depth <= s.limits.maxSubnodeDepth
    ensures var block, g := ReadSubnodeBlock(s, id), SubGraph(s);
            Flatten(g, id, depth)
            == if block.Err? then []
               else if block.value.SubLeaf? then [block.value.entries]
               else FlattenAll(g, block.value.children, depth + 1)
  {
    hide ReadSubnodeBlock;
    var block, g := ReadSubnodeBlock(s, id), SubGraph(s);
    if block.Ok? {
      if block.value.SubLeaf? {
        assert Flatten(g, id, depth) == [block.value.entries] + FlattenAll(g, [], depth + 1);
      } else {
        assert Flatten(g, id, depth) == [] + FlattenAll(g, block.value.children, depth + 1);
      }
    }
  }

  lemma CountOfOne(entries: seq<SubEntry>)
    ensures Total(Count, [entries]) == |entries|
  {
    var one := [entries];
    assert one[1..] == [];
    assert Total(Count, one) == Count(one[0]) + Total(Count, one[1..]);
  }

  lemma {:induction false} NothingBelow(g: Graph<seq<SubEntry>>, ids: seq<nat>, depth: nat)
    requires depth > g.maxDepth && g.guard.EveryBlock?
    ensures FlattenAll(g, ids, depth) == []
    decreases |ids|
  {
    if ids != [] {
      NothingBelow(g, ids[1..], depth);
      assert Flatten(g, ids[0], depth) == [];
    }
  }

  lemma TimesMore(n: nat, ceiling: nat, each: nat)
    requires n <= ceiling
    ensures n * each <= ceiling * each
  {
  }

  /** A block adds no more entries than the levels from it on can hold. */
  lemma {:induction false} EntriesBelow(s: Store, id: nat, depth: nat)
    ensures Total(Count, Flatten(SubGraph(s), id, depth)) <= MaxSubnodes(Levels(s.limits.maxSubnodeDepth, depth))
    decreases Levels(s.limits.maxSubnodeDepth, depth), 0
  {
    hide ReadSubnodeBlock, Flatten, FlattenAll, MaxSubnodes;
    var levels, block := Levels(s.limits.maxSubnodeDepth, depth), ReadSubnodeBlock(s, id);
    if levels == 0 {
      NothingTooDeep(s, id, depth);
    } else {
      FlattenOfSub(s, id, depth);
      if block.Ok? {
        ChildrenBound(s, id);
        match block.value
        case SubLeaf(entries) =>
          CountOfOne(entries);
          LeafFits(levels);
        case SubIndex(children) =>
          EntriesBelowAll(s, children, depth + 1);
          if levels == 1 {
            NothingBelow(SubGraph(s), children, depth + 1);
          } else {
            TimesMore(|children|, MAX_SUBNODE_INDEX, MaxSubnodes(levels - 1));
            OneLevelMore(levels);
          }
      }
    }
  }

  lemma NothingTooDeep(s: Store, id: nat, depth: nat)
    requires depth > s.limits.maxSubnodeDepth
    ensures Flatten(SubGraph(s), id, depth) == []
  {
  }

  lemma OneLevelMore(levels: nat)
    requires levels > 1
    ensures MaxSubnodes(levels) == MAX_SUBNODE_INDEX * MaxSubnodes(levels - 1)
  {
  }

  lemma {:induction false} EntriesBelowAll(s: Store, ids: seq<nat>, depth: nat)
    ensures Total(Count, FlattenAll(SubGraph(s), ids, depth))
         <= |ids| * MaxSubnodes(Levels(s.limits.maxSubnodeDepth, depth))
    decreases Levels(s.limits.maxSubnodeDepth, depth), 1 + |ids|
  {
    hide Flatten, MaxSubnodes, Levels;
    if ids != [] {
      EntriesBelow(s, ids[0], depth);
      EntriesBelowAll(s, ids[1..], depth);
      TotalConcat(Count, Flatten(SubGraph(s), ids[0], depth), FlattenAll(SubGraph(s), ids[1..], depth));
      OneMore(|ids| - 1, MaxSubnodes(Levels(s.limits.maxSubnodeDepth, depth)));
    }
  }

  /** A subnode tree never holds, nor has held when refused, more entries than its levels allow. */
  lemma SubnodeBound(s: Store, id: nat)
    ensures |Joined(SubWalk(s, id).emitted)| <= MaxSubnodes(s.limits.maxSubnodeDepth)
    ensures SubnodeTree(s, id).Ok? ==> |SubnodeTree(s, id).value| <= MaxSubnodes(s.limits.maxSubnodeDepth)
  {
    hide Trace, Flatten, MaxSubnodes, Consume, Joined, Total, AddEntries;
    var g, o := SubGraph(s), SubWalk(s, id);
    ConsumePrefix(s.limits.maxItems, s.limits.maxItems, Count, Trace(g, id, 1), {}, 0);
    TraceEmitsFlatten(g, id, 1);
    EntriesBelow(s, id, 1);
    JoinedCount(o.emitted);
    var all := Flatten(g, id, 1);
    assert all == o.emitted + all[|o.emitted|..];
    TotalConcat(Count, o.emitted, all[|o.emitted|..]);
    AddedCount(map[], Joined(o.emitted));
  }

  /** At the ceiling of two levels that is 510 * 340 = 173400 entries. */
  lemma SubnodeBoundAtTwo(s: Store, id: nat)
    requires s.limits.maxSubnodeDepth == 2
    ensures |Joined(SubWalk(s, id).emitted)| <= 173400
    ensures SubnodeTree(s, id).Ok? ==> |SubnodeTree(s, id).value| <= 173400
  {
    hide SubWalk, SubnodeTree;
    SubnodeBound(s, id);
    assert MaxSubnodes(2) == 510 * MaxSubnodes(1) == 173400;
  }
}
