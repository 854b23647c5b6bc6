/**
 What a guarded walk enters, logged as it goes: each node with its depth, in the order of the trace, no key twice,
 on every graph and however the walk ends.
 */
module WalkLog {
  import opened Wire
  import opened Traversal

  type Log = seq<(nat, nat)>

  function KeysOf<P>(g: Graph<P>, log: Log): (keys: seq<nat>)
    ensures |keys| == |log|
  {
    seq(|log|, i requires 0 <= i < |log| => g.Key(log[i].0))
  }

  /** Guarded nodes, each key once, within the ceiling, at most as deep as the graph allows. */
  ghost predicate Orderly<P>(g: Graph<P>, ceiling: nat, log: Log) {
    && Distinct(KeysOf(g, log)) && |log| <= ceiling
    && forall i :: 0 <= i < |log| ==> g.Guarded(log[i].0) && log[i].1 <= Max(1, g.maxDepth)
  }

  /** A log of what a trace that enters `all` has entered, none of it left out. */
  ghost predicate Logs<P>(g: Graph<P>, ceiling: nat, all: seq<nat>, log: Log) {
    Orderly(g, ceiling, log) && KeysOf(g, log) <= all
  }

  /** `log` is all that was entered, in the order of a trace whose rest is on the stack. */
  ghost predicate Logged<P>(
      g: Graph<P>, ceiling: nat, all: seq<nat>, log: Log, stack: seq<(nat, nat)>, seen: set<nat>)
  {
    && Orderly(g, ceiling, log) && |log| == |seen|
    && (forall k :: k in KeysOf(g, log) <==> k in seen)
    && all == KeysOf(g, log) + Enters(TraceStack(g, stack))
  }

  lemma LoggedLogs<P>(
      g: Graph<P>, ceiling: nat, all: seq<nat>, log: Log, stack: seq<(nat, nat)>, seen: set<nat>)
    requires Logged(g, ceiling, all, log, stack, seen)
    ensures Logs(g, ceiling, all, log) && |log| == |seen| <= ceiling
    ensures stack == [] ==> KeysOf(g, log) == all
  {
    hide Enters, KeysOf;
    if stack == [] {
      NothingLeft(g);
    }
  }

  lemma NoKeys<P>(g: Graph<P>)
    ensures KeysOf(g, []) == []
  {
  }

  lemma NothingLeft<P>(g: Graph<P>)
    ensures Enters(TraceStack(g, [])) == []
  {
  }

  /** A walk that starts with one node on its stack has entered nothing yet. */
  lemma LoggedStarts<P>(g: Graph<P>, ceiling: nat, id: nat, depth: nat)
    ensures Logged(g, ceiling, Enters(Trace(g, id, depth)), [], [(id, depth)], {})
  {
    StartStack(g, id, depth);
    hide Enters, Trace, TraceStack;
    var all := Enters(Trace(g, id, depth));
    assert KeysOf(g, []) == [];
    assert [] + all == all;
  }

  /** A walk that enters its root by itself and puts the children on its stack. */
  lemma LoggedBelow<P>(g: Graph<P>, ceiling: nat, id: nat, children: seq<nat>)
    requires g.Guarded(id) && 0 < ceiling
    ensures Logged(g, ceiling, [g.Key(id)] + Enters(TraceAll(g, children, 2)), [(id, 1)],
                   Reversed(children, 2), {g.Key(id)})
  {
    var log: Log := [(id, 1)];
    PushReversed(g, [], children, 2);
    assert [] + Reversed(children, 2) == Reversed(children, 2);
    assert TraceAll(g, children, 2) + TraceStack(g, []) == TraceAll(g, children, 2);
    hide Enters, TraceAll, TraceStack, Reversed;
    assert KeysOf(g, log) == [g.Key(id)];
  }

  ghost predicate Barred<P>(g: Graph<P>, ceiling: nat, id: nat, depth: nat, seen: set<nat>) {
    g.Guarded(id) && (depth > g.maxDepth || g.Key(id) in seen || |seen| >= ceiling)
  }

  lemma KeysOfSnoc<P>(g: Graph<P>, log: Log, id: nat, depth: nat)
    ensures KeysOf(g, log + [(id, depth)]) == KeysOf(g, log) + [g.Key(id)]
  {
  }

  lemma OrderlyGrows<P>(g: Graph<P>, ceiling: nat, log: Log, id: nat, depth: nat)
    requires Orderly(g, ceiling, log) && g.Guarded(id) && depth <= g.maxDepth
    requires g.Key(id) !in KeysOf(g, log) && |log| < ceiling
    ensures Orderly(g, ceiling, log + [(id, depth)])
  {
    KeysOfSnoc(g, log, id, depth);
    hide KeysOf;
    var keys := KeysOf(g, log);
    assert forall i :: 0 <= i < |keys| ==> keys[i] in keys;
  }

  /** One iteration of a walk that gets past its guards, with the read it is followed by. */
  lemma LoggedStep<P>(
      g: Graph<P>, ceiling: nat, all: seq<nat>, log: Log, below: seq<(nat, nat)>, id: nat, depth: nat, seen: set<nat>)
    returns (log': Log)
    requires Sound(g) && Logged(g, ceiling, all, log, below + [(id, depth)], seen)
    requires !Barred(g, ceiling, id, depth, seen)
    ensures log' == if g.Guarded(id) then log + [(id, depth)] else log
    ensures Logs(g, ceiling, all, log')
    ensures g.read(id).Ok? ==>
              Logged(g, ceiling, all, log', below + Reversed(g.read(id).value.children, depth + 1),
                     if g.Guarded(id) then seen + {g.Key(id)} else seen)
  {
    hide Sound, Enters, TraceStack, Reversed, KeysOf, Orderly;
    var rest := if g.read(id).Err? then below else below + Reversed(g.read(id).value.children, depth + 1);
    if g.Guarded(id) {
      log' := log + [(id, depth)];
      EntersGuarded(g, below, id, depth);
      KeysOfSnoc(g, log, id, depth);
      OrderlyGrows(g, ceiling, log, id, depth);
      ConcatAssociates(KeysOf(g, log), [g.Key(id)], Enters(TraceStack(g, rest)));
    } else {
      log' := log;
      EntersUnguarded(g, below, id, depth);
    }
  }
}
