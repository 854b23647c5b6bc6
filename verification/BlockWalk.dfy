/**
 The walks over block trees ([MS-PST] sections 2.2.2.8.3.2 and 2.2.2.8.3.3): a node's data blocks in order, and its
 subnodes by id. Explicit stacks with depth, cycle and size guards read the recursive trace.
 */
module BlockWalk {
  import opened Wire
  import opened Limits
  import opened Traversal
  import opened WalkLog
  import opened PageTree
  import opened BlockStore

  // --- the data tree -------------------------------------------------------------------------

  function StepOf(node: DataNode): Step<bytes> {
    if node.Data? then Step([node.data], []) else Step([], node.children)
  }

  function DataStep(s: Store, id: nat): Result<Step<bytes>> {
    var node :- ReadDataTree(s, id);
    Ok(StepOf(node))
  }

  /** Only internal ids are guarded. */
  function DataGraph(s: Store): Graph<bytes> {
    Graph(id => DataStep(s, id), InternalBlocks, s.limits.maxXblockDepth)
  }

  function Length(b: bytes): nat {
    |b|
  }

  /** The walk below a tree block, its children at depth 2. */
  function DataWalk(s: Store, id: nat, children: seq<nat>): Outcome<bytes> {
    Consume(s.limits.maxItems, s.limits.maxAllocation, Length, TraceAll(DataGraph(s), children, 2), {SearchKey(id)}, 0)
  }

  function DataBlocks(s: Store, id: nat): Result<seq<bytes>> {
    var root :- ReadDataTree(s, id);
    if root.Data? then Ok([root.data])
    else if root.totalSize > s.limits.maxAllocation || s.limits.maxItems == 0 then Err(Limit)
    else
      var o := DataWalk(s, id, root.children);
      if o.error.Some? then Err(o.error.value) else Ok(o.emitted)
  }

  /** An id resolves to a tree block exactly when it has the internal bit: the block B-tree keys on that bit. */
  lemma InternalIffTree(s: Store, id: nat)
    requires ReadDataTree(s, id).Ok?
    ensures ReadDataTree(s, id).value.XBlock? <==> IsInternal(id)
  {
    var e := FindBlock(s, id).value;
    hide DataNodeOf, VerifyTree, VerifyData, ReadAllocation;
    FoundKey(s.bbt, s.bbt.root, 0, {}, SearchKey(id));
    DataNodeShape(s, e);
    SearchKeyIdempotent(id);
    SearchKeyKeepsInternal(e.block, id);
  }

  lemma SearchKeyIdempotent(id: nat)
    ensures SearchKey(SearchKey(id)) == SearchKey(id)
  {
  }

  lemma DataNodeShape(s: Store, e: Entry)
    requires DataNodeOf(s, e).Ok?
    ensures e.BlockEntry? && (DataNodeOf(s, e).value.XBlock? <==> IsInternal(e.block))
  {
    hide VerifyTree, VerifyData, ReadAllocation;
  }

  /** Whatever the graph, a found entry has the key it was sought under. */
  lemma {:induction false} FoundKey(t: Tree, index: nat, depth: nat, seen: set<nat>, key: nat)
    requires PageTree.Find(t, index, depth, seen, key).Ok?
    ensures KeyOf(PageTree.Find(t, index, depth, seen, key).value) == key
    decreases Levels(t.limits.maxBtreeDepth, depth)
  {
    FindOnce(t, index, depth, seen, key);
    hide PageTree.Find, ReadPage, Bisect.Position, Lookup, KeyOf;
    match ReadPage(t, index).value
    case Leaf(_) =>
    case Index(entries) =>
      var p := Bisect.Position(Keys(entries), key, 0, |entries|);
      FoundKey(t, entries[p - 1].ref, depth + 1, seen + {index}, key);
  }

  lemma DataGraphSound(s: Store)
    ensures Sound(DataGraph(s))
  {
    forall id: nat | !IsInternal(id) && DataStep(s, id).Ok?
      ensures DataStep(s, id).value.children == []
    {
      InternalIffTree(s, id);
    }
  }

  /** What is left of the walk with this stack, these keys entered and these bytes assembled. */
  ghost function DataPending(s: Store, stack: seq<(nat, nat)>, seen: set<nat>, assembled: nat): Outcome<bytes> {
    Consume(s.limits.maxItems, s.limits.maxAllocation, Length, TraceStack(DataGraph(s), stack), seen, assembled)
  }

  ghost predicate Blocked(s: Store, id: nat, depth: nat, seen: set<nat>) {
    IsInternal(id)
    && (depth > s.limits.maxXblockDepth || SearchKey(id) in seen || |seen| >= s.limits.maxItems)
  }

  ghost function EnteredWith(id: nat, seen: set<nat>): set<nat> {
    if IsInternal(id) then seen + {SearchKey(id)} else seen
  }

  /** One iteration of the data walk: the guards of an internal id, then the read. */
  lemma PopBlock(s: Store, below: seq<(nat, nat)>, id: nat, depth: nat, seen: set<nat>, assembled: nat)
    ensures var rest := DataPending(s, below + [(id, depth)], seen, assembled);
            var node := ReadDataTree(s, id);
            if Blocked(s, id, depth, seen) then rest == Outcome([], Some(Limit))
            else if node.Err? then rest == Outcome([], Some(node.error))
            else
              rest == Consume(s.limits.maxItems, s.limits.maxAllocation, Length,
                              EmitAll(StepOf(node.value).emits)
                              + TraceStack(DataGraph(s), below + Reversed(StepOf(node.value).children, depth + 1)),
                              EnteredWith(id, seen), assembled)
  {
    hide ReadDataTree, TraceStack;
    var g, node := DataGraph(s), ReadDataTree(s, id);
    if IsInternal(id) {
      PopGuarded(g, s.limits.maxItems, s.limits.maxAllocation, Length, below, id, depth, seen, assembled);
    } else {
      DataGraphSound(s);
      PopUnguarded(g, below, id, depth);
      if node.Err? {
        assert ([Refuse(node.error)] + TraceStack(g, below))[0] == Refuse(node.error);
      }
    }
  }

  /** A tree block pushes its children; a data block is kept, within the budget. */
  lemma PopData(s: Store, below: seq<(nat, nat)>, id: nat, depth: nat, seen: set<nat>, assembled: nat)
    requires !Blocked(s, id, depth, seen) && ReadDataTree(s, id).Ok?
    ensures var rest := DataPending(s, below + [(id, depth)], seen, assembled);
            var seen' := EnteredWith(id, seen);
            match ReadDataTree(s, id).value
            case XBlock(_, _, children) =>
              rest == DataPending(s, below + Reversed(children, depth + 1), seen', assembled)
            case Data(data) =>
              if assembled + |data| > s.limits.maxAllocation then rest == Outcome([], Some(Limit))
              else
                var next := DataPending(s, below, seen', assembled + |data|);
                rest == Outcome([data] + next.emitted, next.error)
  {
    PopBlock(s, below, id, depth, seen, assembled);
    hide ReadDataTree, TraceStack, Consume, Reversed;
    match ReadDataTree(s, id).value
    case XBlock(_, _, children) =>
      var events := TraceStack(DataGraph(s), below + Reversed(children, depth + 1));
      assert EmitAll<bytes>([]) + events == events;
    case Data(data) =>
      NothingPushed(below, depth + 1);
      ConsumeOne(s.limits.maxItems, s.limits.maxAllocation, Length, data, TraceStack(DataGraph(s), below),
                 EnteredWith(id, seen), assembled);
  }

  /** The walk is `parts` so far and then whatever is pending. */
  ghost predicate DataResumes(
      s: Store, goal: Outcome<bytes>, parts: seq<bytes>, stack: seq<(nat, nat)>, seen: set<nat>, assembled: nat)
  {
    var rest := DataPending(s, stack, seen, assembled);
    goal == Outcome(parts + rest.emitted, rest.error)
  }

  lemma DataResumesStep(
      s: Store, goal: Outcome<bytes>, parts: seq<bytes>, below: seq<(nat, nat)>, id: nat, depth: nat,
      seen: set<nat>, assembled: nat)
    requires DataResumes(s, goal, parts, below + [(id, depth)], seen, assembled)
    ensures var seen' := EnteredWith(id, seen);
            var node := ReadDataTree(s, id);
            if Blocked(s, id, depth, seen) then goal.error == Some(Limit)
            else if node.Err? then goal.error == Some(node.error)
            else
              match node.value
              case XBlock(_, _, children) =>
                DataResumes(s, goal, parts, below + Reversed(children, depth + 1), seen', assembled)
              case Data(data) =>
                if assembled + |data| > s.limits.maxAllocation then goal.error == Some(Limit)
                else DataResumes(s, goal, parts + [data], below, seen', assembled + |data|)
  {
    hide ReadDataTree, DataPending, Reversed, Blocked;
    PopBlock(s, below, id, depth, seen, assembled);
    if !Blocked(s, id, depth, seen) && ReadDataTree(s, id).Ok? {
      PopData(s, below, id, depth, seen, assembled);
      match ReadDataTree(s, id).value
      case XBlock(_, _, _) =>
      case Data(data) =>
        var next := DataPending(s, below, EnteredWith(id, seen), assembled + |data|);
        ConcatAssociates(parts, [data], next.emitted);
    }
  }

  lemma DataResumesEnds(s: Store, id: nat, children: seq<nat>, parts: seq<bytes>, seen: set<nat>, assembled: nat)
    ensures DataResumes(s, DataWalk(s, id, children), [], Reversed(children, 2), {SearchKey(id)}, 0)
    ensures DataResumes(s, DataWalk(s, id, children), parts, [], seen, assembled)
            ==> DataWalk(s, id, children) == Outcome(parts, None)
  {
    var g := DataGraph(s);
    PushReversed(g, [], children, 2);
    assert [] + Reversed(children, 2) == Reversed(children, 2);
    assert TraceAll(g, children, 2) + TraceStack(g, []) == TraceAll(g, children, 2);
    assert parts + [] == parts;
  }

  /** The keys of the tree blocks the whole trace enters, the root's first. */
  ghost function DataEnters(s: Store, id: nat): seq<nat> {
    match ReadDataTree(s, id)
    case Ok(XBlock(_, _, children)) => [SearchKey(id)] + Enters(TraceAll(DataGraph(s), children, 2))
    case _ => []
  }

  lemma NothingEntered(s: Store, id: nat)
    ensures Logs(DataGraph(s), s.limits.maxItems, DataEnters(s, id), [])
    ensures ReadDataTree(s, id).Ok? && ReadDataTree(s, id).value.Data? ==> DataEnters(s, id) == []
  {
    assert KeysOf(DataGraph(s), []) == [];
  }

  lemma DataLogStarts(s: Store, id: nat)
    requires ReadDataTree(s, id).Ok? && ReadDataTree(s, id).value.XBlock? && 0 < s.limits.maxItems
    ensures Logged(DataGraph(s), s.limits.maxItems, DataEnters(s, id), [(id, 1)],
                   Reversed(ReadDataTree(s, id).value.children, 2), {SearchKey(id)})
  {
    InternalIffTree(s, id);
    hide Logged, ReadDataTree;
    LoggedBelow(DataGraph(s), s.limits.maxItems, id, ReadDataTree(s, id).value.children);
  }

  /** One iteration of the data walk, up to the read. */
  lemma DataLogStep(s: Store, all: seq<nat>, log: Log, below: seq<(nat, nat)>, id: nat, depth: nat, seen: set<nat>)
    returns (log': Log)
    requires Logged(DataGraph(s), s.limits.maxItems, all, log, below + [(id, depth)], seen)
    ensures var node := ReadDataTree(s, id);
            && log' == (if IsInternal(id) && !Blocked(s, id, depth, seen) then log + [(id, depth)] else log)
            && Logs(DataGraph(s), s.limits.maxItems, all, log')
            && (!Blocked(s, id, depth, seen) && node.Ok? ==>
                  Logged(DataGraph(s), s.limits.maxItems, all, log',
                         below + Reversed(StepOf(node.value).children, depth + 1), EnteredWith(id, seen)))
  {
    hide Logged, Logs, Reversed, ReadDataTree, Sound;
    var g := DataGraph(s);
    DataGraphSound(s);
    if Blocked(s, id, depth, seen) {
      log' := log;
      LoggedLogs(g, s.limits.maxItems, all, log, below + [(id, depth)], seen);
    } else {
      log' := LoggedStep(g, s.limits.maxItems, all, log, below, id, depth, seen);
    }
  }

  // --- the subnode tree ------------------------------------------------------------------------

  function SubStepOf(block: SubBlock): Step<seq<SubEntry>> {
    if block.SubLeaf? then Step([block.entries], []) else Step([], block.children)
  }

  function SubStep(s: Store, id: nat): Result<Step<seq<SubEntry>>> {
    var block :- ReadSubnodeBlock(s, id);
    Ok(SubStepOf(block))
  }

  function SubGraph(s: Store): Graph<seq<SubEntry>> {
    Graph(id => SubStep(s, id), EveryBlock, s.limits.maxSubnodeDepth)
  }

  function Count(entries: seq<SubEntry>): nat {
    |entries|
  }

  /** The leaf blocks of a subnode tree in order; the entries count against the ceiling on items. */
  function SubWalk(s: Store, id: nat): Outcome<seq<SubEntry>> {
    Consume(s.limits.maxItems, s.limits.maxItems, Count, Trace(SubGraph(s), id, 1), {}, 0)
  }

  /** `dict.setdefault` over a list of entries: the first entry for a node id stays. */
  function AddEntries(m: map<nat, SubEntry>, entries: seq<SubEntry>): map<nat, SubEntry>
    decreases |entries|
  {
    if entries == [] then m
    else AddEntries(if entries[0].node in m then m else m[entries[0].node := entries[0]], entries[1..])
  }

  function Joined<T>(lists: seq<seq<T>>): seq<T> {
    if lists == [] then [] else lists[0] + Joined(lists[1..])
  }

  function SubnodeTree(s: Store, id: nat): Result<map<nat, SubEntry>> {
    var o := SubWalk(s, id);
    if o.error.Some? then Err(o.error.value) else Ok(AddEntries(map[], Joined(o.emitted)))
  }

  ghost function SubPending(s: Store, stack: seq<(nat, nat)>, seen: set<nat>, count: nat): Outcome<seq<SubEntry>> {
    Consume(s.limits.maxItems, s.limits.maxItems, Count, TraceStack(SubGraph(s), stack), seen, count)
  }

  ghost predicate SubBlocked(s: Store, id: nat, depth: nat, seen: set<nat>) {
    depth > s.limits.maxSubnodeDepth || SearchKey(id) in seen || |seen| >= s.limits.maxItems
  }

  /** One iteration of the subnode walk. */
  lemma PopSub(s: Store, below: seq<(nat, nat)>, id: nat, depth: nat, seen: set<nat>, count: nat)
    ensures var rest := SubPending(s, below + [(id, depth)], seen, count);
            var seen' := seen + {SearchKey(id)};
            var block := ReadSubnodeBlock(s, id);
            if SubBlocked(s, id, depth, seen) then rest == Outcome([], Some(Limit))
            else if block.Err? then rest == Outcome([], Some(block.error))
            else if block.value.SubIndex? then
              rest == SubPending(s, below + Reversed(block.value.children, depth + 1), seen', count)
            else if count + |block.value.entries| > s.limits.maxItems then rest == Outcome([], Some(Limit))
            else
              var next := SubPending(s, below, seen', count + |block.value.entries|);
              rest == Outcome([block.value.entries] + next.emitted, next.error)
  {
    hide ReadSubnodeBlock, TraceStack, Reversed, Consume;
    var g, block := SubGraph(s), ReadSubnodeBlock(s, id);
    PopGuarded(g, s.limits.maxItems, s.limits.maxItems, Count, below, id, depth, seen, count);
    if !SubBlocked(s, id, depth, seen) && block.Ok? {
      if block.value.SubIndex? {
        var events := TraceStack(g, below + Reversed(block.value.children, depth + 1));
        assert EmitAll<seq<SubEntry>>([]) + events == events;
      } else {
        NothingPushed(below, depth + 1);
        ConsumeOne(s.limits.maxItems, s.limits.maxItems, Count, block.value.entries, TraceStack(g, below),
                   seen + {SearchKey(id)}, count);
      }
    }
  }

  ghost predicate SubResumes(
      s: Store, id: nat, lists: seq<seq<SubEntry>>, stack: seq<(nat, nat)>, seen: set<nat>, count: nat)
  {
    var rest := SubPending(s, stack, seen, count);
    SubWalk(s, id) == Outcome(lists + rest.emitted, rest.error)
  }

  lemma SubResumesStep(
      s: Store, root: nat, lists: seq<seq<SubEntry>>, below: seq<(nat, nat)>, id: nat, depth: nat,
      seen: set<nat>, count: nat)
    requires SubResumes(s, root, lists, below + [(id, depth)], seen, count)
    ensures var seen' := seen + {SearchKey(id)};
            var block := ReadSubnodeBlock(s, id);
            if SubBlocked(s, id, depth, seen) then SubWalk(s, root).error == Some(Limit)
            else if block.Err? then SubWalk(s, root).error == Some(block.error)
            else if block.value.SubIndex? then
              SubResumes(s, root, lists, below + Reversed(block.value.children, depth + 1), seen', count)
            else if count + |block.value.entries| > s.limits.maxItems then SubWalk(s, root).error == Some(Limit)
            else SubResumes(s, root, lists + [block.value.entries], below, seen', count + |block.value.entries|)
  {
    hide ReadSubnodeBlock, SubPending, Reversed, SubBlocked, SubWalk;
    PopSub(s, below, id, depth, seen, count);
    var block := ReadSubnodeBlock(s, id);
    if block.Ok? && block.value.SubLeaf? {
      var next := SubPending(s, below, seen + {SearchKey(id)}, count + |block.value.entries|);
      ConcatAssociates(lists, [block.value.entries], next.emitted);
    }
  }

  lemma SubResumesEnds(s: Store, id: nat, lists: seq<seq<SubEntry>>, seen: set<nat>, count: nat)
    ensures SubResumes(s, id, [], [(id, 1)], {}, 0)
    ensures SubResumes(s, id, lists, [], seen, count) ==> SubWalk(s, id) == Outcome(lists, None)
  {
    StartStack(SubGraph(s), id, 1);
    assert lists + [] == lists;
  }

  /** The keys of the blocks the whole trace enters. */
  ghost function SubEnters(s: Store, id: nat): seq<nat> {
    Enters(Trace(SubGraph(s), id, 1))
  }

  lemma SubLogStarts(s: Store, id: nat)
    ensures Logged(SubGraph(s), s.limits.maxItems, SubEnters(s, id), [], [(id, 1)], {})
  {
    LoggedStarts(SubGraph(s), s.limits.maxItems, id, 1);
  }

  /** One iteration of the subnode walk, up to the read. */
  lemma SubLogStep(s: Store, all: seq<nat>, log: Log, below: seq<(nat, nat)>, id: nat, depth: nat, seen: set<nat>)
    returns (log': Log)
    requires Logged(SubGraph(s), s.limits.maxItems, all, log, below + [(id, depth)], seen)
    ensures var block := ReadSubnodeBlock(s, id);
            && log' == (if SubBlocked(s, id, depth, seen) then log else log + [(id, depth)])
            && Logs(SubGraph(s), s.limits.maxItems, all, log')
            && (!SubBlocked(s, id, depth, seen) && block.Ok? ==>
                  Logged(SubGraph(s), s.limits.maxItems, all, log',
                         below + Reversed(SubStepOf(block.value).children, depth + 1), seen + {SearchKey(id)}))
  {
    hide Logged, Logs, Reversed, ReadSubnodeBlock;
    var g := SubGraph(s);
    if SubBlocked(s, id, depth, seen) {
      log' := log;
      LoggedLogs(g, s.limits.maxItems, all, log, below + [(id, depth)], seen);
    } else {
      log' := LoggedStep(g, s.limits.maxItems, all, log, below, id, depth, seen);
    }
  }

  lemma {:induction false} JoinedSnoc<T>(lists: seq<seq<T>>, last: seq<T>)
    ensures Joined(lists + [last]) == Joined(lists) + last
  {
    if lists == [] {
      assert lists + [last] == [last];
      assert Joined([last]) == last + Joined<T>([]);
    } else {
      assert (lists + [last])[1..] == lists[1..] + [last];
      JoinedSnoc(lists[1..], last);
    }
  }

  lemma {:induction false} AddEntriesConcat(m: map<nat, SubEntry>, a: seq<SubEntry>, b: seq<SubEntry>)
    ensures AddEntries(m, a + b) == AddEntries(AddEntries(m, a), b)
    decreases |a|
  {
    if a == [] {
      assert a + b == b;
    } else {
      assert (a + b)[1..] == a[1..] + b;
      AddEntriesConcat(if a[0].node in m then m else m[a[0].node := a[0]], a[1..], b);
    }
  }

  // --- the reader --------------------------------------------------------------------------------

  class BlockReader {
    const store: Store
    const bbt: BTree

    ghost predicate Valid()
      reads bbt
    {
      bbt.Valid() && bbt.tree == store.bbt
    }

    constructor (store: Store, bbt: BTree)
      requires bbt.Valid() && bbt.tree == store.bbt
      ensures Valid() && this.store == store && this.bbt == bbt
    {
      this.store := store;
      this.bbt := bbt;
    }

    /** One block of a data tree, by id, through the block B-tree. */
    method ReadData(id: nat) returns (r: Result<DataNode>)
      requires Valid()
      modifies bbt`cache
      ensures Valid() && r == ReadDataTree(store, id)
    {
      hide BTree.Valid, PageTree.Find, DataNodeOf;
      var entry, path := bbt.FindKey(SearchKey(id));
      if entry.Err? {
        return Err(entry.error);
      }
      return DataNodeOf(store, entry.value);
    }

    method ReadSub(id: nat) returns (r: Result<SubBlock>)
      requires Valid()
      modifies bbt`cache
      ensures Valid() && r == ReadSubnodeBlock(store, id)
    {
      hide BTree.Valid, PageTree.Find, SubBlockOf;
      var entry, path := bbt.FindKey(SearchKey(id));
      if entry.Err? {
        return Err(entry.error);
      }
      return SubBlockOf(store, entry.value);
    }

    /**
     A node's data one block at a time: the explicit stack, which guards internal ids only, computes the guarded
     reading of the recursive trace, and always stops. However it ends, every tree block it enters is logged, in the
     trace's order, none twice and none too deep.
     */
    method ReadDataBlocks(id: nat) returns (r: Result<seq<bytes>>, ghost log: Log)
      requires Valid()
      modifies bbt`cache
      ensures Valid() && r == DataBlocks(store, id)
      ensures Logs(DataGraph(store), store.limits.maxItems, DataEnters(store, id), log)
      ensures r.Ok? ==> KeysOf(DataGraph(store), log) == DataEnters(store, id)
    {
      hide Valid, ReadDataTree, DataWalk, DataResumes, Reversed, Logged, Logs, DataEnters, DataGraph, KeysOf;
      ghost var g, all, ceiling := DataGraph(store), DataEnters(store, id), store.limits.maxItems;
      log := [];
      NothingEntered(store, id);
      var root := ReadData(id);
      if root.Err? {
        return Err(root.error), log;
      }
      if root.value.Data? {
        NoKeys(g);
        return Ok([root.value.data]), log;
      }
      if root.value.totalSize > store.limits.maxAllocation {
        return Err(Limit), log;
      }
      var visited := new VisitedSet(store.limits.maxItems);
      var ok := visited.Add(SearchKey(id));
      if !ok {
        return Err(Limit), log;
      }
      var parts: seq<bytes>, assembled: nat := [], 0;
      var stack := Reversed(root.value.children, 2);
      ghost var goal := DataWalk(store, id, root.value.children);
      DataResumesEnds(store, id, root.value.children, [], {}, 0);
      DataLogStarts(store, id);
      log := [(id, 1)];
      while stack != []
        invariant Valid() && fresh(visited) && visited.ceiling == store.limits.maxItems
        invariant |visited.seen| <= visited.ceiling
        invariant DataResumes(store, goal, parts, stack, visited.seen, assembled)
        invariant Logged(g, ceiling, all, log, stack, visited.seen)
        decreases visited.ceiling - |visited.seen|, |stack|
      {
        var (child, depth) := stack[|stack| - 1];
        ghost var below := stack[..|stack| - 1];
        assert stack == below + [(child, depth)];
        DataResumesStep(store, goal, parts, below, child, depth, visited.seen, assembled);
        log := DataLogStep(store, all, log, below, child, depth, visited.seen);
        stack := stack[..|stack| - 1];
        if IsInternal(child) {
          if depth > store.limits.maxXblockDepth {
            return Err(Limit), log;
          }
          ok := visited.Add(SearchKey(child));
          if !ok {
            return Err(Limit), log;
          }
        }
        var node := ReadData(child);
        if node.Err? {
          return Err(node.error), log;
        }
        match node.value
        case XBlock(_, _, children) =>
          InternalIffTree(store, child);
          stack := stack + Reversed(children, depth + 1);
        case Data(data) =>
          NothingPushed(stack, depth + 1);
          parts := parts + [data];
          assembled := assembled + |data|;
          if assembled > store.limits.maxAllocation {
            return Err(Limit), log;
          }
      }
      DataResumesEnds(store, id, root.value.children, parts, visited.seen, assembled);
      LoggedLogs(g, ceiling, all, log, stack, visited.seen);
      return Ok(parts), log;
    }

    /**
     Every leaf entry of a subnode tree by node id, the first one winning. However it ends, every block it enters is
     logged, in the trace's order, none twice and none too deep.
     */
    method ReadSubnodeTree(id: nat) returns (r: Result<map<nat, SubEntry>>, ghost log: Log)
      requires Valid()
      modifies bbt`cache
      ensures Valid() && r == SubnodeTree(store, id)
      ensures Logs(SubGraph(store), store.limits.maxItems, SubEnters(store, id), log)
      ensures r.Ok? ==> KeysOf(SubGraph(store), log) == SubEnters(store, id)
    {
      hide Valid, ReadSubnodeBlock, SubWalk, SubResumes, Reversed, Logged, Logs, SubEnters, SubGraph, KeysOf;
      ghost var g, all, ceiling := SubGraph(store), SubEnters(store, id), store.limits.maxItems;
      log := [];
      SubLogStarts(store, id);
      var visited := new VisitedSet(store.limits.maxItems);
      var entries: map<nat, SubEntry>, count: nat := map[], 0;
      var stack: seq<(nat, nat)> := [(id, 1)];
      ghost var lists: seq<seq<SubEntry>> := [];
      SubResumesEnds(store, id, [], {}, 0);
      while stack != []
        invariant Valid() && fresh(visited) && visited.ceiling == store.limits.maxItems
        invariant |visited.seen| <= visited.ceiling
        invariant SubResumes(store, id, lists, stack, visited.seen, count)
        invariant entries == AddEntries(map[], Joined(lists))
        invariant Logged(g, ceiling, all, log, stack, visited.seen)
        decreases visited.ceiling - |visited.seen|
      {
        var (child, depth) := stack[|stack| - 1];
        ghost var below := stack[..|stack| - 1];
        assert stack == below + [(child, depth)];
        SubResumesStep(store, id, lists, below, child, depth, visited.seen, count);
        log := SubLogStep(store, all, log, below, child, depth, visited.seen);
        stack := stack[..|stack| - 1];
        if depth > store.limits.maxSubnodeDepth {
          return Err(Limit), log;
        }
        var ok := visited.Add(SearchKey(child));
        if !ok {
          return Err(Limit), log;
        }
        var block := ReadSub(child);
        if block.Err? {
          return Err(block.error), log;
        }
        match block.value
        case SubIndex(children) =>
          stack := stack + Reversed(children, depth + 1);
        case SubLeaf(leaf) =>
          NothingPushed(stack, depth + 1);
          count := count + |leaf|;
          if count > store.limits.maxItems {
            return Err(Limit), log;
          }
          entries := SetDefaults(entries, leaf);
          JoinedSnoc(lists, leaf);
          AddEntriesConcat(map[], Joined(lists), leaf);
          lists := lists + [leaf];
      }
      SubResumesEnds(store, id, lists, visited.seen, count);
      LoggedLogs(g, ceiling, all, log, stack, visited.seen);
      return Ok(entries), log;
    }

    static method SetDefaults(m: map<nat, SubEntry>, leaf: seq<SubEntry>) returns (entries: map<nat, SubEntry>)
      ensures entries == AddEntries(m, leaf)
    {
      entries := m;
      for i := 0 to |leaf|
        invariant AddEntries(entries, leaf[i..]) == AddEntries(m, leaf)
      {
        assert leaf[i..][0] == leaf[i] && leaf[i..][1..] == leaf[i + 1..];
        if leaf[i].node !in entries {
          entries := entries[leaf[i].node := leaf[i]];
        }
      }
    }
  }
}
