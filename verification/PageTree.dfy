/**
 The page B-trees ([MS-PST] section 2.2.2.7.7): the guarded pre-order walk, the bisecting lookup, and the cache of
 index pages both of them fill. The file is a fixed function from byte offset to a parsed page or a refusal.
 */
module PageTree {
  import opened Wire
  import opened Limits
  import opened Traversal
  import opened WalkLog
  import opened Bisect

  const PAGE_SIZE := 512

  datatype IndexEntry = IndexEntry(key: nat, ref: nat)

  /** A leaf entry: where a block is and how big, or what a node is made of. */
  datatype Entry =
    | BlockEntry(block: nat, index: nat, size: nat, refCount: nat)
    | NodeEntry(node: nat, data: nat, subNode: Option<nat>, parent: Option<nat>)

  /** What a tree is ordered by: the block id without its reserved bit, or the node id. */
  function KeyOf(entry: Entry): nat {
    match entry
    case BlockEntry(block, _, _, _) => SearchKey(block)
    case NodeEntry(node, _, _, _) => node
  }

  datatype Page = Leaf(values: seq<Entry>) | Index(entries: seq<IndexEntry>)

  /** A tree over a file; only the node B-tree insists that separators are 32-bit ids. */
  datatype Tree = Tree(
    file: nat -> Result<Page>,
    isNodeTree: bool,
    root: nat,
    limits: Limits)

  predicate AllNids(entries: seq<IndexEntry>) {
    forall i :: 0 <= i < |entries| ==> entries[i].key < U32
  }

  /** A leaf page is refused unless it is of its tree's own kind. */
  predicate AllOfKind(isNodeTree: bool, values: seq<Entry>) {
    forall i :: 0 <= i < |values| ==> values[i].NodeEntry? == isNodeTree
  }

  function ReadPage(t: Tree, index: nat): (r: Result<Page>)
  {
    if index + PAGE_SIZE > t.limits.maxFileSize then Err(Format)
    else
      var page := t.file(index);
      if page.Err? then page
      else if page.value.Leaf? then if AllOfKind(t.isNodeTree, page.value.values) then page else Err(Format)
      else if t.isNodeTree && !AllNids(page.value.entries) then Err(Format)
      else page
  }

  function Keys(entries: seq<IndexEntry>): (keys: seq<nat>)
    ensures |keys| == |entries|
    ensures forall i :: 0 <= i < |entries| ==> keys[i] == entries[i].key
  {
    seq(|entries|, i requires 0 <= i < |entries| => entries[i].key)
  }

  function Refs(entries: seq<IndexEntry>): (refs: seq<nat>)
    ensures |refs| == |entries|
  {
    if entries == [] then [] else [entries[0].ref] + Refs(entries[1..])
  }

  lemma {:induction false} RefsAt(entries: seq<IndexEntry>, c: nat)
    requires c < |entries|
    ensures Refs(entries)[c] == entries[c].ref
  {
    if c > 0 {
      RefsAt(entries[1..], c - 1);
    }
  }

  function Children(page: Page): seq<nat> {
    if page.Leaf? then [] else Refs(page.entries)
  }

  function ReadStep(t: Tree, index: nat): Result<Step<Page>> {
    match ReadPage(t, index)
    case Err(e) => Err(e)
    case Ok(page) => Ok(Step([page], Children(page)))
  }

  /** Every page is guarded, by its byte offset. */
  function PageGraph(t: Tree): Graph<Page> {
    Graph(index => ReadStep(t, index), ByOffset, t.limits.maxBtreeDepth)
  }

  function NoCost(page: Page): nat {
    0
  }

  /** What `pages()` yields, and how it ends. */
  function Walk(t: Tree): Outcome<Page> {
    Consume(t.limits.maxItems, 0, NoCost, Trace(PageGraph(t), t.root, 0), {}, 0)
  }

  /** The entries of a list of pages, each leaf counted against the ceiling before it is yielded. */
  function LeafEntries(pages: seq<Page>, end: Option<Error>, count: nat, ceiling: nat): Outcome<Entry> {
    if pages == [] then Outcome([], end)
    else if pages[0].Index? then LeafEntries(pages[1..], end, count, ceiling)
    else if count + |pages[0].values| > ceiling then Outcome([], Some(Limit))
    else
      var rest := LeafEntries(pages[1..], end, count + |pages[0].values|, ceiling);
      Outcome(pages[0].values + rest.emitted, rest.error)
  }

  /** The first value with the key. */
  function Lookup(values: seq<Entry>, key: nat): (r: Result<Entry>)
    ensures r.Ok? ==> r.value in values && KeyOf(r.value) == key
    ensures r.Err? ==> r.error == NotFound && forall v :: v in values ==> KeyOf(v) != key
  {
    if values == [] then Err(NotFound)
    else if KeyOf(values[0]) == key then Ok(values[0])
    else Lookup(values[1..], key)
  }

  /** The descent from page `index` with the offsets it has already followed. */
  function Find(t: Tree, index: nat, depth: nat, seen: set<nat>, key: nat): Result<Entry>
    decreases Levels(t.limits.maxBtreeDepth, depth)
  {
    if depth > t.limits.maxBtreeDepth || index in seen || |seen| >= t.limits.maxItems then Err(Limit)
    else
      match ReadPage(t, index)
      case Err(e) => Err(e)
      case Ok(Leaf(values)) => Lookup(values, key)
      case Ok(Index(entries)) =>
        var p := Position(Keys(entries), key, 0, |entries|);
        if p == 0 then Err(NotFound) else Find(t, entries[p - 1].ref, depth + 1, seen + {index}, key)
  }

  /** Each page of the path is one the page before it refers to. */
  ghost predicate Chain(t: Tree, path: seq<nat>) {
    |path| <= 1
    || (Chain(t, path[..|path| - 1]) && ReadPage(t, path[|path| - 2]).Ok?
        && path[|path| - 1] in Children(ReadPage(t, path[|path| - 2]).value))
  }

  lemma ChainGrows(t: Tree, path: seq<nat>, ref: nat)
    requires Chain(t, path)
    requires path != [] ==> ReadPage(t, path[|path| - 1]).Ok? && ref in Children(ReadPage(t, path[|path| - 1]).value)
    ensures Chain(t, path + [ref])
  {
    hide ReadPage, Children;
    assert (path + [ref])[..|path|] == path;
  }

  // --- the imperative tree ---------------------------------------------------------------

  class BTree {
    const tree: Tree
    var cache: map<nat, Page>

    /** The cache holds index pages only, and each as the file has it. */
    ghost predicate Valid()
      reads this
    {
      forall o :: o in cache ==> cache[o].Index? && ReadPage(tree, o) == Ok(cache[o])
    }

    constructor (tree: Tree)
      ensures Valid() && this.tree == tree && cache == map[]
    {
      this.tree := tree;
      cache := map[];
    }

    /** One reference: depth, revisit, then the cache or the file. The answer does not depend on the cache. */
    method Child(ref: nat, depth: nat, visited: VisitedSet) returns (r: Result<Page>)
      requires Valid() && visited.ceiling == tree.limits.maxItems
      modifies this`cache, visited
      ensures Valid()
      ensures var refused := depth > tree.limits.maxBtreeDepth || ref in old(visited.seen)
                             || |old(visited.seen)| >= visited.ceiling;
              && r == (if refused then Err(Limit) else ReadPage(tree, ref))
              && visited.seen == (if refused then old(visited.seen) else old(visited.seen) + {ref})
    {
      if depth > tree.limits.maxBtreeDepth {
        return Err(Limit);
      }
      var ok := visited.Add(ref);
      if !ok {
        return Err(Limit);
      }
      if ref in cache {
        return Ok(cache[ref]);
      }
      r := ReadPage(tree, ref);
      if r.Ok? && r.value.Index? {
        cache := cache[ref := r.value];
      }
    }

    /** The children of an index page, last first, so that the first entry's subtree is walked first. */
    static method Pushed(below: seq<(nat, nat)>, entries: seq<IndexEntry>, depth: nat) returns (stack: seq<(nat, nat)>)
      ensures stack == below + Reversed(Refs(entries), depth)
    {
      stack := below;
      for i := |entries| downto 0
        invariant stack == below + Reversed(Refs(entries[i..]), depth)
      {
        assert entries[i..][1..] == entries[i + 1..];
        stack := stack + [(entries[i].ref, depth)];
      }
      assert entries[0..] == entries;
    }

    /** One iteration of the walk: pop, follow the reference, push the children. */
    method Visit(stack: seq<(nat, nat)>, visited: VisitedSet, ghost pages: seq<Page>)
      returns (r: Result<Page>, stack': seq<(nat, nat)>)
      requires Valid() && visited.ceiling == tree.limits.maxItems && stack != []
      requires Resumes(tree, pages, stack, visited.seen)
      modifies this`cache, visited
      ensures Valid()
      ensures r.Err? ==> Walk(tree) == Outcome(pages, Some(r.error))
      ensures r.Ok? ==> Resumes(tree, pages + [r.value], stack', visited.seen)
      ensures var (ref, depth) := stack[|stack| - 1];
              if Refused(tree, ref, depth, old(visited.seen)) then r.Err? && visited.seen == old(visited.seen)
              else r == ReadPage(tree, ref) && visited.seen == old(visited.seen) + {ref}
                   && (r.Ok? ==> stack' == stack[..|stack| - 1] + Reversed(Children(r.value), depth + 1))
    {
      hide Resumes, Walk, ReadPage, Valid, Reversed;
      var (ref, depth) := stack[|stack| - 1];
      stack' := stack[..|stack| - 1];
      ghost var below, seen := stack', visited.seen;
      assert stack == below + [(ref, depth)];
      ResumesStep(tree, pages, below, ref, depth, seen);
      r := Child(ref, depth, visited);
      if r.Ok? {
        if r.value.Index? {
          stack' := Pushed(stack', r.value.entries, depth + 1);
        } else {
          NothingPushed(below, depth + 1);
        }
      }
    }

    /**
     Every page, pre-order: the explicit stack goes through the recursive trace, whatever calls came before. Every
     offset it enters is logged, in the trace's order and none twice; each page yielded is the one at its offset.
     */
    method Pages() returns (o: Outcome<Page>, ghost log: Log)
      requires Valid()
      modifies this`cache
      ensures Valid() && o == Walk(tree)
      ensures Logs(PageGraph(tree), tree.limits.maxItems, PageEnters(tree), log)
      ensures |o.emitted| <= |log| <= |o.emitted| + 1
      ensures forall i :: 0 <= i < |o.emitted| ==> ReadPage(tree, log[i].0) == Ok(o.emitted[i])
      ensures o.error.None? ==> |log| == |o.emitted| && KeysOf(PageGraph(tree), log) == PageEnters(tree)
    {
      hide Resumes, Walk, Valid, Logged, Logs, Refused, PageGraph, PageEnters, ReadPage, Reversed;
      var visited := new VisitedSet(tree.limits.maxItems);
      var stack: seq<(nat, nat)> := [(tree.root, 0)];
      var pages: seq<Page> := [];
      ghost var g, all := PageGraph(tree), PageEnters(tree);
      log := [];
      ResumesEnds(tree, pages, {});
      PageLogStarts(tree);
      while stack != []
        invariant Valid() && fresh(visited) && visited.ceiling == tree.limits.maxItems
        invariant Resumes(tree, pages, stack, visited.seen)
        invariant Logged(g, tree.limits.maxItems, all, log, stack, visited.seen) && |log| == |pages|
        invariant forall i :: 0 <= i < |pages| ==> ReadPage(tree, log[i].0) == Ok(pages[i])
        invariant |log| == |visited.seen| <= tree.limits.maxItems
        decreases tree.limits.maxItems - |visited.seen|
      {
        ghost var log' := PageLogStep(tree, log, stack, visited.seen);
        var r, rest := Visit(stack, visited, pages);
        if r.Err? {
          return Outcome(pages, Some(r.error)), log';
        }
        stack := rest;
        pages, log := pages + [r.value], log';
        LoggedLogs(g, tree.limits.maxItems, all, log, stack, visited.seen);
      }
      ResumesEnds(tree, pages, visited.seen);
      LoggedLogs(g, tree.limits.maxItems, all, log, stack, visited.seen);
      return Outcome(pages, None), log;
    }

    /** Every leaf entry, in tree order. */
    method Entries() returns (o: Outcome<Entry>)
      requires Valid()
      modifies this`cache
      ensures Valid() && o == LeafEntries(Walk(tree).emitted, Walk(tree).error, 0, tree.limits.maxItems)
    {
      var walked, log := Pages();
      var pages, count, found: seq<Entry> := walked.emitted, 0, [];
      ghost var all := LeafEntries(pages, walked.error, 0, tree.limits.maxItems);
      for i := 0 to |pages|
        invariant count >= 0
        invariant var rest := LeafEntries(pages[i..], walked.error, count, tree.limits.maxItems);
                  all == Outcome(found + rest.emitted, rest.error)
      {
        assert pages[i..][1..] == pages[i + 1..] && pages[i..][0] == pages[i];
        if pages[i].Leaf? {
          count := count + |pages[i].values|;
          if count > tree.limits.maxItems {
            assert found + [] == found;
            return Outcome(found, Some(Limit));
          }
          found := found + pages[i].values;
        }
      }
      assert found + [] == found;
      return Outcome(found, walked.error);
    }

    method ScanLeaf(values: seq<Entry>, key: nat) returns (r: Result<Entry>)
      ensures r == Lookup(values, key)
    {
      for i := 0 to |values|
        invariant Lookup(values[i..], key) == Lookup(values, key)
      {
        assert values[i..][1..] == values[i + 1..];
        if KeyOf(values[i]) == key {
          return Ok(values[i]);
        }
      }
      return Err(NotFound);
    }

    /**
     The lookup: whatever calls came before, and however it ends, it follows at most one page per level, each
     referred to by the one before and none of them twice.
     */
    method FindKey(key: nat) returns (r: Result<Entry>, ghost path: seq<nat>)
      requires Valid()
      modifies this`cache
      ensures Valid() && r == Find(tree, tree.root, 0, {}, key)
      ensures Descent(tree, path)
      ensures r.Ok? ==> path != [] && r.value in LeafValues(tree, path[|path| - 1]) && KeyOf(r.value) == key
    {
      hide ReadPage, Lookup, Position, Refs, Keys, Followed, Descent, Find;
      var visited := new VisitedSet(tree.limits.maxItems);
      var ref: nat, depth: nat := tree.root, 0;
      path := [];
      FollowedStarts(tree);
      while true
        invariant Valid() && fresh(visited) && visited.ceiling == tree.limits.maxItems
        invariant depth == |path| <= tree.limits.maxBtreeDepth + 1
        invariant Find(tree, ref, depth, visited.seen, key) == Find(tree, tree.root, 0, {}, key)
        invariant Followed(tree, path, ref, visited.seen)
        decreases tree.limits.maxBtreeDepth + 1 - depth
      {
        FollowedPaths(tree, path, ref, visited.seen);
        FindOnce(tree, ref, depth, visited.seen, key);
        ghost var seen, longer := visited.seen, path + [ref];
        var page := Child(ref, depth, visited);
        if page.Err? {
          return Err(page.error), if visited.seen == seen then path else longer;
        }
        match page.value
        case Leaf(values) =>
          r := ScanLeaf(values, key);
          return r, longer;
        case Index(entries) =>
          var position := BisectRight(Keys(entries), key);
          if position == 0 {
            return Err(NotFound), longer;
          }
          FollowedStep(tree, path, ref, seen, position - 1);
          path := longer;
          ref, depth := entries[position - 1].ref, depth + 1;
      }
    }
  }

  /** A chain of distinct pages from the root on, at most one per level. */
  ghost predicate Descent(t: Tree, path: seq<nat>) {
    && Distinct(path) && |path| <= Min(t.limits.maxBtreeDepth + 1, t.limits.maxItems)
    && Chain(t, path) && (path != [] ==> path[0] == t.root)
  }

  /** One page of the descent. */
  lemma FindOnce(t: Tree, index: nat, depth: nat, seen: set<nat>, key: nat)
    ensures Find(t, index, depth, seen, key)
         == if depth > t.limits.maxBtreeDepth || index in seen || |seen| >= t.limits.maxItems then Err(Limit)
            else if ReadPage(t, index).Err? then Err(ReadPage(t, index).error)
            else if ReadPage(t, index).value.Leaf? then Lookup(ReadPage(t, index).value.values, key)
            else
              var entries := ReadPage(t, index).value.entries;
              var p := Position(Keys(entries), key, 0, |entries|);
              if p == 0 then Err(NotFound) else Find(t, entries[p - 1].ref, depth + 1, seen + {index}, key)
  {
    hide ReadPage, Lookup, Position, Keys;
  }

  /** A descent so far: the chain of distinct pages it followed, and the page it is about to. */
  ghost predicate Followed(t: Tree, path: seq<nat>, ref: nat, seen: set<nat>) {
    && Distinct(path) && |path| == |seen| <= t.limits.maxItems && (forall k :: k in path <==> k in seen)
    && Chain(t, path) && Chain(t, path + [ref]) && (path + [ref])[0] == t.root
  }

  lemma FollowedStarts(t: Tree)
    ensures Followed(t, [], t.root, {})
  {
    assert [] + [t.root] == [t.root];
  }

  lemma FollowedPaths(t: Tree, path: seq<nat>, ref: nat, seen: set<nat>)
    requires Followed(t, path, ref, seen)
    ensures |path| <= t.limits.maxBtreeDepth + 1 ==> Descent(t, path)
    ensures ref !in seen && |seen| < t.limits.maxItems && |path| <= t.limits.maxBtreeDepth ==> Descent(t, path + [ref])
  {
    hide Chain;
    if ref !in seen {
      DistinctSnoc(path, ref);
    }
    if path != [] {
      assert (path + [ref])[0] == path[0];
    }
  }

  lemma DistinctSnoc(path: seq<nat>, ref: nat)
    requires Distinct(path) && ref !in path
    ensures Distinct(path + [ref])
  {
    assert forall i :: 0 <= i < |path| ==> path[i] in path;
  }

  lemma FollowedStep(t: Tree, path: seq<nat>, ref: nat, seen: set<nat>, c: nat)
    requires Followed(t, path, ref, seen) && ref !in seen && |seen| < t.limits.maxItems
    requires ReadPage(t, ref).Ok? && ReadPage(t, ref).value.Index? && c < |ReadPage(t, ref).value.entries|
    ensures Followed(t, path + [ref], ReadPage(t, ref).value.entries[c].ref, seen + {ref})
  {
    hide ReadPage, Children, Chain;
    var child := ReadPage(t, ref).value.entries[c].ref;
    DistinctSnoc(path, ref);
    ChildAt(t, ref, c);
    ChainGrows(t, path + [ref], child);
    assert (path + [ref] + [child])[0] == (path + [ref])[0];
  }

  function LeafValues(t: Tree, index: nat): seq<Entry> {
    match ReadPage(t, index)
    case Ok(Leaf(values)) => values
    case _ => []
  }

  lemma ChildAt(t: Tree, index: nat, c: nat)
    requires ReadPage(t, index).Ok? && ReadPage(t, index).value.Index? && c < |ReadPage(t, index).value.entries|
    ensures ReadPage(t, index).value.entries[c].ref in Children(ReadPage(t, index).value)
  {
    RefsAt(ReadPage(t, index).value.entries, c);
  }

  // --- the offsets a walk enters ----------------------------------------------------------------

  /** The offsets the whole trace enters. */
  ghost function PageEnters(t: Tree): seq<nat> {
    Enters(Trace(PageGraph(t), t.root, 0))
  }

  lemma PageLogStarts(t: Tree)
    ensures Logged(PageGraph(t), t.limits.maxItems, PageEnters(t), [], [(t.root, 0)], {})
  {
    LoggedStarts(PageGraph(t), t.limits.maxItems, t.root, 0);
  }

  /** One iteration of the page walk, up to the read. */
  lemma PageLogStep(t: Tree, log: Log, stack: seq<(nat, nat)>, seen: set<nat>) returns (log': Log)
    requires Logged(PageGraph(t), t.limits.maxItems, PageEnters(t), log, stack, seen) && stack != []
    ensures var g, below, (ref, depth) := PageGraph(t), stack[..|stack| - 1], stack[|stack| - 1];
            && log' == (if Refused(t, ref, depth, seen) then log else log + [(ref, depth)])
            && Logs(g, t.limits.maxItems, PageEnters(t), log')
            && (!Refused(t, ref, depth, seen) && ReadPage(t, ref).Ok? ==>
                  Logged(g, t.limits.maxItems, PageEnters(t), log',
                         below + Reversed(Children(ReadPage(t, ref).value), depth + 1), seen + {ref}))
  {
    hide Logged, Logs, PageEnters, Reversed, ReadPage;
    var g, below := PageGraph(t), stack[..|stack| - 1];
    var (ref, depth) := stack[|stack| - 1];
    assert stack == below + [(ref, depth)];
    if Refused(t, ref, depth, seen) {
      log' := log;
      LoggedLogs(g, t.limits.maxItems, PageEnters(t), log, stack, seen);
    } else {
      log' := LoggedStep(g, t.limits.maxItems, PageEnters(t), log, below, ref, depth, seen);
    }
  }

  /** What is left of a walk when the stack is `stack` and the offsets in `seen` were entered. */
  ghost function Pending(t: Tree, stack: seq<(nat, nat)>, seen: set<nat>): Outcome<Page> {
    Consume(t.limits.maxItems, 0, NoCost, TraceStack(PageGraph(t), stack), seen, 0)
  }

  lemma PendingEnds(t: Tree, seen: set<nat>)
    ensures Pending(t, [(t.root, 0)], {}) == Walk(t)
    ensures Pending(t, [], seen) == Outcome([], None)
  {
    StartStack(PageGraph(t), t.root, 0);
  }

  ghost predicate Refused(t: Tree, ref: nat, depth: nat, seen: set<nat>) {
    depth > t.limits.maxBtreeDepth || ref in seen || |seen| >= t.limits.maxItems
  }

  /** The walk is `pages` so far and then whatever is pending. */
  ghost predicate Resumes(t: Tree, pages: seq<Page>, stack: seq<(nat, nat)>, seen: set<nat>) {
    var rest := Pending(t, stack, seen);
    Walk(t) == Outcome(pages + rest.emitted, rest.error)
  }

  lemma ResumesStep(t: Tree, pages: seq<Page>, below: seq<(nat, nat)>, ref: nat, depth: nat, seen: set<nat>)
    requires Resumes(t, pages, below + [(ref, depth)], seen)
    ensures if Refused(t, ref, depth, seen) then Walk(t) == Outcome(pages, Some(Limit))
            else if ReadPage(t, ref).Err? then Walk(t) == Outcome(pages, Some(ReadPage(t, ref).error))
            else
              var page := ReadPage(t, ref).value;
              Resumes(t, pages + [page], below + Reversed(Children(page), depth + 1), seen + {ref})
  {
    hide Pending, Walk;
    PopPage(t, below, ref, depth, seen);
    assert pages + [] == pages;
    if ReadPage(t, ref).Ok? {
      var page := ReadPage(t, ref).value;
      var next := Pending(t, below + Reversed(Children(page), depth + 1), seen + {ref});
      ConcatAssociates(pages, [page], next.emitted);
    }
  }

  lemma ResumesEnds(t: Tree, pages: seq<Page>, seen: set<nat>)
    ensures Resumes(t, [], [(t.root, 0)], {})
    ensures Resumes(t, pages, [], seen) ==> Walk(t) == Outcome(pages, None)
  {
    PendingEnds(t, seen);
    assert pages + [] == pages;
  }

  /** One iteration of the walk. */
  lemma PopPage(t: Tree, below: seq<(nat, nat)>, ref: nat, depth: nat, seen: set<nat>)
    ensures var rest := Pending(t, below + [(ref, depth)], seen);
            if Refused(t, ref, depth, seen) then rest == Outcome([], Some(Limit))
            else if ReadPage(t, ref).Err? then rest == Outcome([], Some(ReadPage(t, ref).error))
            else
              var page := ReadPage(t, ref).value;
              var next := Pending(t, below + Reversed(Children(page), depth + 1), seen + {ref});
              rest == Outcome([page] + next.emitted, next.error)
  {
    hide Consume, TraceStack, Reversed, EmitAll;
    var g := PageGraph(t);
    PopGuarded(g, t.limits.maxItems, 0, NoCost, below, ref, depth, seen, 0);
    if ReadPage(t, ref).Ok? {
      var page := ReadPage(t, ref).value;
      ConsumeOne(t.limits.maxItems, 0, NoCost, page, TraceStack(g, below + Reversed(Children(page), depth + 1)),
                 seen + {ref}, 0);
    }
  }
}
