/**
 What the walk and the lookup of a page tree have to do with each other: on ordered trees they agree; on any
 graph the lookup is sound and short.
 */
module PageOrder {
  import opened Wire
  import opened Limits
  import opened Traversal
  import opened Bisect
  import opened Ordering
  import opened PageTree

  // --- the plain list of leaf entries ---------------------------------------------------

  function LeafList(pages: seq<Page>): seq<Entry> {
    if pages == [] then []
    else (if pages[0].Leaf? then pages[0].values else []) + LeafList(pages[1..])
  }

  lemma {:induction false} LeafListConcat(a: seq<Page>, b: seq<Page>)
    ensures LeafList(a + b) == LeafList(a) + LeafList(b)
  {
    if a == [] {
      assert a + b == b;
    } else {
      assert (a + b)[1..] == a[1..] + b;
      LeafListConcat(a[1..], b);
    }
  }

  /** An iteration yields a prefix of the plain list, all of it exactly when the walk ends well within the ceiling. */
  lemma {:induction false} LeafEntriesIff(pages: seq<Page>, end: Option<Error>, count: nat, ceiling: nat)
    requires count <= ceiling
    ensures var o := LeafEntries(pages, end, count, ceiling);
            && o.emitted <= LeafList(pages) && count + |o.emitted| <= ceiling
            && (o.error.None? <==> end.None? && count + |LeafList(pages)| <= ceiling)
            && (o.error.None? ==> o.emitted == LeafList(pages))
    decreases |pages|
  {
    if pages != [] {
      if pages[0].Index? {
        LeafEntriesIff(pages[1..], end, count, ceiling);
      } else if count + |pages[0].values| <= ceiling {
        LeafEntriesIff(pages[1..], end, count + |pages[0].values|, ceiling);
      }
    }
  }

  /** The values in the leaves below a page, left to right. */
  function Below(t: Tree, index: nat, depth: nat): seq<Entry> {
    LeafList(Flatten(PageGraph(t), index, depth))
  }

  function BelowAll(t: Tree, refs: seq<nat>, depth: nat): seq<Entry> {
    LeafList(FlattenAll(PageGraph(t), refs, depth))
  }

  lemma BelowPage(t: Tree, index: nat, depth: nat)
    requires depth <= t.limits.maxBtreeDepth && ReadPage(t, index).Ok?
    ensures Below(t, index, depth)
         == var page := ReadPage(t, index).value;
            if page.Leaf? then page.values else BelowAll(t, Refs(page.entries), depth + 1)
  {
    var page := ReadPage(t, index).value;
    var g := PageGraph(t);
    assert Flatten(g, index, depth) == [page] + FlattenAll(g, Children(page), depth + 1);
    LeafListConcat([page], FlattenAll(g, Children(page), depth + 1));
    assert [page][1..] == [];
    assert LeafList([page]) == if page.Leaf? then page.values else [];
  }

  lemma BelowHead(t: Tree, refs: seq<nat>, depth: nat)
    requires refs != []
    ensures BelowAll(t, refs, depth) == Below(t, refs[0], depth) + BelowAll(t, refs[1..], depth)
  {
    var g := PageGraph(t);
    LeafListConcat(Flatten(g, refs[0], depth), FlattenAll(g, refs[1..], depth));
  }

  // --- ordered trees ------------------------------------------------------------------------

  function Separator(entry: IndexEntry): nat {
    entry.key
  }

  /** Every page below readable, separators ascending, each child's keys inside its separator interval. */
  ghost predicate Ordered(t: Tree, index: nat, depth: nat, low: nat, high: nat)
    decreases Levels(t.limits.maxBtreeDepth, depth), 0
  {
    && depth <= t.limits.maxBtreeDepth
    && ReadPage(t, index).Ok?
    && match ReadPage(t, index).value
       case Leaf(values) => SortedIn(values, KeyOf, low, high)
       case Index(entries) => Separators(entries, Separator, low, high) && OrderedAll(t, entries, depth + 1, high)
  }

  ghost predicate OrderedAll(t: Tree, entries: seq<IndexEntry>, depth: nat, high: nat)
    decreases Levels(t.limits.maxBtreeDepth, depth), 1 + |entries|
  {
    entries == []
    || (Ordered(t, entries[0].ref, depth, entries[0].key, NextKey(entries, Separator, high))
        && OrderedAll(t, entries[1..], depth, high))
  }

  /** An ordered tree lists its entries in ascending key order, inside its interval. */
  lemma {:induction false} OrderedIsSorted(t: Tree, index: nat, depth: nat, low: nat, high: nat)
    requires Ordered(t, index, depth, low, high)
    ensures SortedIn(Below(t, index, depth), KeyOf, low, high)
    decreases Levels(t.limits.maxBtreeDepth, depth), 0
  {
    BelowPage(t, index, depth);
    match ReadPage(t, index).value
    case Leaf(_) =>
    case Index(entries) =>
      OrderedAllIsSorted(t, entries, depth + 1, low, high);
  }

  lemma {:induction false} OrderedAllIsSorted(t: Tree, entries: seq<IndexEntry>, depth: nat, low: nat, high: nat)
    requires Separators(entries, Separator, low, high) && OrderedAll(t, entries, depth, high)
    ensures SortedIn(BelowAll(t, Refs(entries), depth), KeyOf, low, high)
    decreases Levels(t.limits.maxBtreeDepth, depth), 1 + |entries|
  {
    if entries != [] {
      hide SortedIn, Ordered, Separators;
      SeparatorsTail(entries, Separator, low, high);
      var middle := NextKey(entries, Separator, high);
      OrderedIsSorted(t, entries[0].ref, depth, entries[0].key, middle);
      OrderedAllIsSorted(t, entries[1..], depth, middle, high);
      BelowHead(t, Refs(entries), depth);
      SortedInWiden(Below(t, entries[0].ref, depth), KeyOf, entries[0].key, low, middle);
      SortedInConcat(Below(t, entries[0].ref, depth), BelowAll(t, Refs(entries[1..]), depth), KeyOf, low, middle, high);
    }
  }

  // --- the lookup on an ordered tree ------------------------------------------------------

  lemma {:induction false} LookupConcat(a: seq<Entry>, b: seq<Entry>, key: nat)
    ensures Lookup(a + b, key) == if Lookup(a, key).Ok? then Lookup(a, key) else Lookup(b, key)
  {
    if a == [] {
      assert a + b == b;
    } else {
      assert (a + b)[1..] == a[1..] + b;
      LookupConcat(a[1..], b, key);
    }
  }

  lemma NotInInterval(values: seq<Entry>, low: nat, high: nat, key: nat)
    requires SortedIn(values, KeyOf, low, high) && (key < low || high <= key)
    ensures Lookup(values, key) == Err(NotFound)
  {
    assert forall v :: v in values ==> low <= KeyOf(v) < high;
  }

  /** Only the child whose separator interval holds the key can have it. */
  lemma {:induction false} LookupInChild(
      t: Tree, entries: seq<IndexEntry>, depth: nat, low: nat, high: nat, key: nat, c: nat)
    requires Separators(entries, Separator, low, high) && OrderedAll(t, entries, depth, high) && c < |entries|
    requires entries[c].key <= key && (c + 1 < |entries| ==> key < entries[c + 1].key)
    ensures Lookup(BelowAll(t, Refs(entries), depth), key) == Lookup(Below(t, entries[c].ref, depth), key)
    decreases |entries|
  {
    var first, rest := Below(t, entries[0].ref, depth), BelowAll(t, Refs(entries[1..]), depth);
    BelowHead(t, Refs(entries), depth);
    LookupConcat(first, rest, key);
    SeparatorsTail(entries, Separator, low, high);
    var middle := NextKey(entries, Separator, high);
    OrderedIsSorted(t, entries[0].ref, depth, entries[0].key, middle);
    if c > 0 {
      assert entries[1].key <= entries[c].key;
      NotInInterval(first, entries[0].key, middle, key);
      LookupInChild(t, entries[1..], depth, middle, high, key, c - 1);
    } else {
      OrderedAllIsSorted(t, entries[1..], depth, middle, high);
      if |entries| > 1 {
        NotInInterval(rest, middle, high, key);
      } else {
        assert rest == [];
      }
    }
  }

  lemma BelowFirstKey(t: Tree, entries: seq<IndexEntry>, depth: nat, low: nat, high: nat, key: nat)
    requires Separators(entries, Separator, low, high) && OrderedAll(t, entries, depth, high)
    requires forall i :: 0 <= i < |entries| ==> key < entries[i].key
    ensures Lookup(BelowAll(t, Refs(entries), depth), key) == Err(NotFound)
  {
    if entries == [] {
    } else {
      assert Separators(entries, Separator, entries[0].key, high);
      OrderedAllIsSorted(t, entries, depth, entries[0].key, high);
      NotInInterval(BelowAll(t, Refs(entries), depth), entries[0].key, high, key);
    }
  }

  // --- the guards of the lookup are no tighter than those of the walk ---------------------------

  lemma AdmitsSplit(ceiling: nat, seen: set<nat>, a: seq<nat>, b: seq<nat>)
    requires Admits(ceiling, seen, a + b)
    ensures Admits(ceiling, seen, a) && Admits(ceiling, seen, b)
  {
    var all := a + b;
    assert forall i :: 0 <= i < |a| ==> all[i] == a[i];
    assert forall i :: 0 <= i < |b| ==> all[|a| + i] == b[i];
    assert forall k :: k in a || k in b ==> k in all;
  }

  /** A guard that lets all children through lets each of them through. */
  lemma {:induction false} AdmitsOneChild<P>(
      g: Graph<P>, refs: seq<nat>, depth: nat, c: nat, ceiling: nat, seen: set<nat>)
    requires c < |refs| && Admits(ceiling, seen, Enters(TraceAll(g, refs, depth)))
    ensures Admits(ceiling, seen, Enters(Trace(g, refs[c], depth)))
    decreases c
  {
    EntersOfFirst(g, refs, depth);
    hide Admits, Enters, Trace, TraceAll;
    AdmitsSplit(ceiling, seen, Enters(Trace(g, refs[0], depth)), Enters(TraceAll(g, refs[1..], depth)));
    if c > 0 {
      assert refs[1..][c - 1] == refs[c];
      AdmitsOneChild(g, refs[1..], depth, c - 1, ceiling, seen);
    }
  }

  lemma EntersOfFirst<P>(g: Graph<P>, refs: seq<nat>, depth: nat)
    requires refs != []
    ensures Enters(TraceAll(g, refs, depth)) == Enters(Trace(g, refs[0], depth)) + Enters(TraceAll(g, refs[1..], depth))
  {
    hide Enters;
    EntersConcat(Trace(g, refs[0], depth), TraceAll(g, refs[1..], depth));
  }

  lemma EntersOfPage(t: Tree, index: nat, depth: nat)
    requires depth <= t.limits.maxBtreeDepth && ReadPage(t, index).Ok?
    ensures var g := PageGraph(t);
            Enters(Trace(g, index, depth))
            == [index] + Enters(TraceAll(g, Children(ReadPage(t, index).value), depth + 1))
  {
    var g := PageGraph(t);
    var page := ReadPage(t, index).value;
    var below := TraceAll(g, Children(page), depth + 1);
    assert g.read(index) == Ok(Step([page], Children(page)));
    hide PageGraph, ReadPage, Children, TraceAll, EmitAll, Enters;
    assert Trace(g, index, depth) == [Enter(index)] + (EmitAll([page]) + below);
    hide Trace;
    EntersEnter(index, EmitAll([page]) + below);
    EntersBehind([page], below);
  }

  /** The lookup finds what the plain list has first under the key, wherever the walk may go. */
  lemma {:induction false} FindIsLookup(t: Tree, index: nat, depth: nat, low: nat, high: nat, seen: set<nat>, key: nat)
    requires Ordered(t, index, depth, low, high)
    requires Admits(t.limits.maxItems, seen, Enters(Trace(PageGraph(t), index, depth)))
    ensures Find(t, index, depth, seen, key) == Lookup(Below(t, index, depth), key)
    decreases Levels(t.limits.maxBtreeDepth, depth)
  {
    hide Find, Admits, Lookup, Position, Below, BelowAll, Separators, Enters, Trace, TraceAll;
    BelowPage(t, index, depth);
    AdmitsPage(t, index, depth, seen);
    var page := ReadPage(t, index).value;
    if page.Index? {
      var entries := page.entries;
      assert Separators(entries, Separator, low, high) && OrderedAll(t, entries, depth + 1, high);
      hide Ordered, OrderedAll;
      SeparatorsSorted(entries, low, high);
      var p := FindStep(t, index, depth, seen, key);
      if p == 0 {
        BelowFirstKey(t, entries, depth + 1, low, high, key);
      } else {
        var ref := entries[p - 1].ref;
        LookupInChild(t, entries, depth + 1, low, high, key, p - 1);
        OrderedChild(t, entries, depth + 1, high, p - 1);
        AdmitsChild(t, entries, depth + 1, seen + {index}, p - 1);
        FindIsLookup(t, ref, depth + 1, entries[p - 1].key, NextKey(entries[p - 1..], Separator, high),
                     seen + {index}, key);
      }
    } else {
      FindInLeaf(t, index, depth, seen, key);
    }
  }

  lemma FindInLeaf(t: Tree, index: nat, depth: nat, seen: set<nat>, key: nat)
    requires depth <= t.limits.maxBtreeDepth && index !in seen && |seen| < t.limits.maxItems
    requires ReadPage(t, index).Ok? && ReadPage(t, index).value.Leaf?
    ensures Find(t, index, depth, seen, key) == Lookup(ReadPage(t, index).value.values, key)
  {
  }

  /** On ascending separators the descent takes the last child whose key is not above the one sought. */
  lemma FindStep(t: Tree, index: nat, depth: nat, seen: set<nat>, key: nat) returns (p: nat)
    requires depth <= t.limits.maxBtreeDepth && index !in seen && |seen| < t.limits.maxItems
    requires ReadPage(t, index).Ok? && ReadPage(t, index).value.Index?
    requires Sorted(Keys(ReadPage(t, index).value.entries))
    ensures var entries := ReadPage(t, index).value.entries;
            && p <= |entries|
            && (p == 0 ==> forall i :: 0 <= i < |entries| ==> key < entries[i].key)
            && (p > 0 ==> entries[p - 1].key <= key && (p < |entries| ==> key < entries[p].key))
            && Find(t, index, depth, seen, key)
               == if p == 0 then Err(NotFound) else Find(t, entries[p - 1].ref, depth + 1, seen + {index}, key)
  {
    var entries := ReadPage(t, index).value.entries;
    p := Position(Keys(entries), key, 0, |entries|);
    PositionSplits(Keys(entries), key, 0, |entries|);
    if p > 0 {
      assert Keys(entries)[p - 1] <= key;
    }
  }

  lemma SeparatorsSorted(entries: seq<IndexEntry>, low: nat, high: nat)
    requires Separators(entries, Separator, low, high)
    ensures Sorted(Keys(entries))
  {
  }

  /** A page the walk got through is new to it, and so are the pages below. */
  lemma AdmitsPage(t: Tree, index: nat, depth: nat, seen: set<nat>)
    requires depth <= t.limits.maxBtreeDepth && ReadPage(t, index).Ok?
    requires Admits(t.limits.maxItems, seen, Enters(Trace(PageGraph(t), index, depth)))
    ensures index !in seen && |seen| < t.limits.maxItems
    ensures Admits(t.limits.maxItems, seen + {index},
                   Enters(TraceAll(PageGraph(t), Children(ReadPage(t, index).value), depth + 1)))
  {
    hide Admits, Trace, TraceAll;
    EntersOfPage(t, index, depth);
    var keys := Enters(TraceAll(PageGraph(t), Children(ReadPage(t, index).value), depth + 1));
    AdmitsHead(t.limits.maxItems, seen, [index] + keys);
    assert ([index] + keys)[1..] == keys;
  }

  lemma AdmitsChild(t: Tree, entries: seq<IndexEntry>, depth: nat, seen: set<nat>, c: nat)
    requires c < |entries|
    requires Admits(t.limits.maxItems, seen, Enters(TraceAll(PageGraph(t), Refs(entries), depth)))
    ensures Admits(t.limits.maxItems, seen, Enters(Trace(PageGraph(t), entries[c].ref, depth)))
  {
    RefsAt(entries, c);
    AdmitsOneChild(PageGraph(t), Refs(entries), depth, c, t.limits.maxItems, seen);
  }

  lemma {:induction false} OrderedChild(t: Tree, entries: seq<IndexEntry>, depth: nat, high: nat, c: nat)
    requires OrderedAll(t, entries, depth, high) && c < |entries|
    ensures Ordered(t, entries[c].ref, depth, entries[c].key, NextKey(entries[c..], Separator, high))
  {
    if c > 0 {
      OrderedChild(t, entries[1..], depth, high, c - 1);
      assert entries[1..][c - 1..] == entries[c..];
    } else {
      assert entries[0..] == entries;
    }
  }

  /**
   On every ordered tree the iteration gets through, the lookup returns the first entry the iteration yields for
   the key, and refuses as not found exactly when it yields none; and the iteration is in ascending key order.
   */
  lemma FindAgreesWithWalk(t: Tree, high: nat, key: nat)
    requires Ordered(t, t.root, 0, 0, high)
    requires LeafEntries(Walk(t).emitted, Walk(t).error, 0, t.limits.maxItems).error.None?
    ensures var listed := LeafEntries(Walk(t).emitted, Walk(t).error, 0, t.limits.maxItems).emitted;
            && Find(t, t.root, 0, {}, key) == Lookup(listed, key)
            && (Find(t, t.root, 0, {}, key) == Err(NotFound) <==> forall v :: v in listed ==> KeyOf(v) != key)
            && SortedIn(listed, KeyOf, 0, high)
  {
    var g := PageGraph(t);
    LeafEntriesIff(Walk(t).emitted, Walk(t).error, 0, t.limits.maxItems);
    ConsumeSucceedsIff(t.limits.maxItems, 0, NoCost, Trace(g, t.root, 0), {}, 0);
    TraceEmitsFlatten(g, t.root, 0);
    FindIsLookup(t, t.root, 0, 0, high, {}, key);
    OrderedIsSorted(t, t.root, 0, 0, high);
  }

  // --- arbitrary page graphs -------------------------------------------------------------------

  /** A chain of references from page `index` down to a leaf that holds `v`. */
  ghost predicate LeadsTo(t: Tree, path: seq<nat>, v: Entry)
    decreases |path|
  {
    && path != []
    && ReadPage(t, path[0]).Ok?
    && match ReadPage(t, path[0]).value
       case Leaf(values) => |path| == 1 && v in values
       case Index(entries) => |path| > 1 && path[1] in Refs(entries) && LeadsTo(t, path[1..], v)
  }

  /**
   On any graph, cyclic or shared, what the lookup returns has the key and lies in a leaf it reached over at most
   `maxBtreeDepth` + 1 distinct pages.
   */
  lemma {:induction false} FindIsSound(t: Tree, index: nat, depth: nat, seen: set<nat>, key: nat)
    returns (path: seq<nat>)
    requires Find(t, index, depth, seen, key).Ok?
    ensures var v := Find(t, index, depth, seen, key).value;
            && KeyOf(v) == key
            && LeadsTo(t, path, v) && path[0] == index
            && |path| + depth <= t.limits.maxBtreeDepth + 1
            && Distinct(path) && forall k :: k in path ==> k !in seen
    decreases Levels(t.limits.maxBtreeDepth, depth)
  {
    hide Find, Position, Keys, ReadPage, Lookup, Refs, KeyOf;
    FindOnce(t, index, depth, seen, key);
    match ReadPage(t, index).value
    case Leaf(values) =>
      path := [index];
    case Index(entries) =>
      var p := Position(Keys(entries), key, 0, |entries|);
      var rest := FindIsSound(t, entries[p - 1].ref, depth + 1, seen + {index}, key);
      path := [index] + rest;
      RefsAt(entries, p - 1);
      assert path[1..] == rest;
      assert index !in rest;
  }
}
