/**
 The guarded pre-order walk the page, data-block and subnode readers share: an explicit stack, a cycle guard, a
 depth ceiling and a budget. A walk is the reading of a trace of events, and the trace is plain recursion.
 */
module Traversal {
  import opened Wire

  /** What reading one node gives: the values it contributes and the nodes below it. */
  datatype Step<P> = Step(emits: seq<P>, children: seq<nat>)

  /** Which nodes a walk guards, and under which key: pages by offset, blocks by id without the reserved bit. */
  datatype Guard = ByOffset | EveryBlock | InternalBlocks

  /** A block id: bit 0 is reserved, bit 1 says internal. */
  function SearchKey(id: nat): nat {
    id - id % 2
  }

  predicate IsInternal(id: nat) {
    id / 2 % 2 == 1
  }

  /** A graph of nodes; a guarded node counts towards depth and may be entered only once, by its key. */
  datatype Graph<P> = Graph(read: nat -> Result<Step<P>>, guard: Guard, maxDepth: nat)
  {
    predicate Guarded(id: nat) {
      guard.InternalBlocks? ==> IsInternal(id)
    }

    function Key(id: nat): nat {
      if guard.ByOffset? then id else SearchKey(id)
    }
  }

  /** Only guarded nodes have children. */
  ghost predicate Sound<P>(g: Graph<P>) {
    forall id: nat :: !g.Guarded(id) && g.read(id).Ok? ==> g.read(id).value.children == []
  }

  datatype Event<P> = Enter(key: nat) | Refuse(error: Error) | Emit(value: P)

  /** How many more levels a walk at `depth` may go down. */
  function Levels(maxDepth: nat, depth: nat): nat {
    if depth <= maxDepth then maxDepth + 1 - depth else 0
  }

  function EmitAll<P>(values: seq<P>): (events: seq<Event<P>>)
    ensures |events| == |values|
  {
    if values == [] then [] else [Emit(values[0])] + EmitAll(values[1..])
  }

  /** Everything that happens below `id`, in order, as if nothing were refused for having been seen. */
  function Trace<P>(g: Graph<P>, id: nat, depth: nat): seq<Event<P>>
    decreases Levels(g.maxDepth, depth), 0
  {
    if g.Guarded(id) && depth > g.maxDepth then [Refuse(Limit)]
    else
      (if g.Guarded(id) then [Enter(g.Key(id))] else []) +
      match g.read(id)
      case Err(e) => [Refuse(e)]
      case Ok(step) => EmitAll(step.emits) + if g.Guarded(id) then TraceAll(g, step.children, depth + 1) else []
  }

  function TraceAll<P>(g: Graph<P>, ids: seq<nat>, depth: nat): seq<Event<P>>
    decreases Levels(g.maxDepth, depth), 1 + |ids|
  {
    if ids == [] then [] else Trace(g, ids[0], depth) + TraceAll(g, ids[1..], depth)
  }

  // --- the explicit stack -----------------------------------------------------------

  /** What popping an explicit stack, its top at the end, will go through. */
  function TraceStack<P>(g: Graph<P>, stack: seq<(nat, nat)>): seq<Event<P>>
    decreases |stack|
  {
    if stack == [] then []
    else
      var top := stack[|stack| - 1];
      Trace(g, top.0, top.1) + TraceStack(g, stack[..|stack| - 1])
  }

  /** `ids` at `depth`, last first, so that the first is popped first. */
  function Reversed(ids: seq<nat>, depth: nat): (stack: seq<(nat, nat)>)
    ensures |stack| == |ids|
  {
    if ids == [] then [] else Reversed(ids[1..], depth) + [(ids[0], depth)]
  }

  /** Pushing the children reversed makes the stack go through them in order, then through what was below. */
  lemma {:induction false} PushReversed<P>(g: Graph<P>, rest: seq<(nat, nat)>, ids: seq<nat>, depth: nat)
    ensures TraceStack(g, rest + Reversed(ids, depth)) == TraceAll(g, ids, depth) + TraceStack(g, rest)
    decreases |ids|
  {
    if ids == [] {
      assert rest + Reversed(ids, depth) == rest;
    } else {
      var below := rest + Reversed(ids[1..], depth);
      assert rest + Reversed(ids, depth) == below + [(ids[0], depth)];
      assert (below + [(ids[0], depth)])[..|below|] == below;
      PushReversed(g, rest, ids[1..], depth);
    }
  }

  // --- reading a trace ----------------------------------------------------------------

  datatype Outcome<P> = Outcome(emitted: seq<P>, error: Option<Error>)

  /** The guards along a trace: the values that get through, and the refusal that ends it, if any. */
  function Consume<P>(ceiling: nat, budget: nat, cost: P -> nat, events: seq<Event<P>>, seen: set<nat>, spent: nat): Outcome<P>
    decreases |events|
  {
    if events == [] then Outcome([], None)
    else
      match events[0]
      case Enter(k) =>
        if k in seen || |seen| >= ceiling then Outcome([], Some(Limit))
        else Consume(ceiling, budget, cost, events[1..], seen + {k}, spent)
      case Refuse(e) => Outcome([], Some(e))
      case Emit(v) =>
        if spent + cost(v) > budget then Outcome([], Some(Limit))
        else
          var rest := Consume(ceiling, budget, cost, events[1..], seen, spent + cost(v));
          Outcome([v] + rest.emitted, rest.error)
  }

  function Enters<P>(events: seq<Event<P>>): seq<nat> {
    if events == [] then []
    else (if events[0].Enter? then [events[0].key] else []) + Enters(events[1..])
  }

  function Emitted<P>(events: seq<Event<P>>): seq<P> {
    if events == [] then []
    else (if events[0].Emit? then [events[0].value] else []) + Emitted(events[1..])
  }

  ghost predicate NoRefusal<P>(events: seq<Event<P>>) {
    forall i :: 0 <= i < |events| ==> !events[i].Refuse?
  }

  function Total<P>(cost: P -> nat, values: seq<P>): nat {
    if values == [] then 0 else cost(values[0]) + Total(cost, values[1..])
  }

  ghost predicate Distinct(keys: seq<nat>) {
    forall i, j :: 0 <= i < j < |keys| ==> keys[i] != keys[j]
  }

  /** No key twice, none of them seen, and room for all. */
  ghost predicate Admits(ceiling: nat, seen: set<nat>, keys: seq<nat>) {
    Distinct(keys) && (forall k :: k in keys ==> k !in seen) && (keys != [] ==> |seen| + |keys| <= ceiling)
  }

  lemma AdmitsHead(ceiling: nat, seen: set<nat>, keys: seq<nat>)
    requires keys != []
    ensures Admits(ceiling, seen, keys)
            <==> keys[0] !in seen && |seen| < ceiling && Admits(ceiling, seen + {keys[0]}, keys[1..])
  {
    var k, rest := keys[0], keys[1..];
    assert keys == [k] + rest;
    if Admits(ceiling, seen, keys) {
      assert forall i :: 0 <= i < |rest| ==> rest[i] == keys[i + 1];
      assert k in keys;
    }
    if k !in seen && |seen| < ceiling && Admits(ceiling, seen + {k}, rest) {
      forall i, j | 0 <= i < j < |keys|
        ensures keys[i] != keys[j]
      {
        assert keys[j] == rest[j - 1];
        if i > 0 {
          assert keys[i] == rest[i - 1];
        }
      }
    }
  }

  /**
   A walk succeeds exactly when nothing on its trace is refused by itself, no key is entered twice, and neither
   the ceiling on entries nor the budget is exceeded; it then yields everything the trace emits.
   */
  lemma {:induction false} ConsumeSucceedsIff<P>(
      ceiling: nat, budget: nat, cost: P -> nat, events: seq<Event<P>>, seen: set<nat>, spent: nat)
    requires spent <= budget
    ensures var o := Consume(ceiling, budget, cost, events, seen, spent);
            && (o.error.None?
                <==> NoRefusal(events) && Admits(ceiling, seen, Enters(events))
                     && spent + Total(cost, Emitted(events)) <= budget)
            && (o.error.None? ==> o.emitted == Emitted(events))
    decreases |events|
  {
    if events != [] {
      var rest := events[1..];
      assert events == [events[0]] + rest;
      assert NoRefusal(events) <==> !events[0].Refuse? && NoRefusal(rest) by {
        assert forall i :: 0 <= i < |rest| ==> rest[i] == events[i + 1];
      }
      match events[0]
      case Enter(k) =>
        assert Enters(events) == [k] + Enters(rest);
        assert Enters(events)[1..] == Enters(rest);
        assert Emitted(events) == Emitted(rest);
        AdmitsHead(ceiling, seen, Enters(events));
        if k !in seen && |seen| < ceiling {
          ConsumeSucceedsIff(ceiling, budget, cost, rest, seen + {k}, spent);
        }
      case Refuse(e) =>
      case Emit(v) =>
        assert Emitted(events) == [v] + Emitted(rest);
        assert Emitted(events)[1..] == Emitted(rest);
        assert Enters(events) == Enters(rest);
        if spent + cost(v) <= budget {
          ConsumeSucceedsIff(ceiling, budget, cost, rest, seen, spent + cost(v));
        }
    }
  }

  /** Even a walk that is refused has yielded a prefix of the trace, within the budget. */
  lemma {:induction false} ConsumePrefix<P>(
      ceiling: nat, budget: nat, cost: P -> nat, events: seq<Event<P>>, seen: set<nat>, spent: nat)
    requires spent <= budget
    ensures var o := Consume(ceiling, budget, cost, events, seen, spent);
            o.emitted <= Emitted(events) && spent + Total(cost, o.emitted) <= budget
    decreases |events|
  {
    if events != [] {
      match events[0]
      case Enter(k) =>
        if k !in seen && |seen| < ceiling {
          ConsumePrefix(ceiling, budget, cost, events[1..], seen + {k}, spent);
        }
      case Refuse(e) =>
      case Emit(v) =>
        if spent + cost(v) <= budget {
          ConsumePrefix(ceiling, budget, cost, events[1..], seen, spent + cost(v));
        }
    }
  }

  /** The keys a walk enters, whether or not it is refused later. */
  function Entered<P>(ceiling: nat, budget: nat, cost: P -> nat, events: seq<Event<P>>, seen: set<nat>, spent: nat): seq<nat>
    decreases |events|
  {
    if events == [] then []
    else
      match events[0]
      case Enter(k) =>
        if k in seen || |seen| >= ceiling then []
        else [k] + Entered(ceiling, budget, cost, events[1..], seen + {k}, spent)
      case Refuse(_) => []
      case Emit(v) =>
        if spent + cost(v) > budget then []
        else Entered(ceiling, budget, cost, events[1..], seen, spent + cost(v))
  }

  /** On any graph, cyclic or shared, no key is entered twice and at most `ceiling` are entered. */
  lemma {:induction false} EnteredOnce<P>(
      ceiling: nat, budget: nat, cost: P -> nat, events: seq<Event<P>>, seen: set<nat>, spent: nat)
    ensures Admits(ceiling, seen, Entered(ceiling, budget, cost, events, seen, spent))
    decreases |events|
  {
    if events != [] {
      match events[0]
      case Enter(k) =>
        if k !in seen && |seen| < ceiling {
          EnteredOnce(ceiling, budget, cost, events[1..], seen + {k}, spent);
          hide Admits;
          var keys := Entered(ceiling, budget, cost, events, seen, spent);
          assert keys[1..] == Entered(ceiling, budget, cost, events[1..], seen + {k}, spent);
          AdmitsHead(ceiling, seen, keys);
        }
      case Refuse(_) =>
      case Emit(v) =>
        if spent + cost(v) <= budget {
          EnteredOnce(ceiling, budget, cost, events[1..], seen, spent + cost(v));
        }
    }
  }

  /**
   How far a walk goes along its trace: everything before event `n` gets through, and its keys and values are the
   ones entered and yielded; event `n`, if there is one, is what the walk refuses.
   */
  lemma {:induction false} ConsumeReads<P>(
      ceiling: nat, budget: nat, cost: P -> nat, events: seq<Event<P>>, seen: set<nat>, spent: nat)
    returns (n: nat)
    ensures var o := Consume(ceiling, budget, cost, events, seen, spent);
            && n <= |events| && NoRefusal(events[..n])
            && Enters(events[..n]) == Entered(ceiling, budget, cost, events, seen, spent)
            && Emitted(events[..n]) == o.emitted
            && (o.error.None? <==> n == |events|)
            && (n < |events| && events[n].Refuse? ==> o.error == Some(events[n].error))
            && (n < |events| && !events[n].Refuse? ==> o.error == Some(Limit))
    decreases |events|
  {
    hide Enters, Emitted, NoRefusal;
    n := 0;
    NothingRead(events);
    if events != [] {
      var rest := events[1..];
      match events[0]
      case Enter(k) =>
        if k !in seen && |seen| < ceiling {
          n := ConsumeReads(ceiling, budget, cost, rest, seen + {k}, spent);
          n := n + 1;
          PrefixOfEvents(events, n);
        }
      case Refuse(_) =>
      case Emit(v) =>
        if spent + cost(v) <= budget {
          n := ConsumeReads(ceiling, budget, cost, rest, seen, spent + cost(v));
          n := n + 1;
          PrefixOfEvents(events, n);
        }
    }
  }

  lemma NothingRead<P>(events: seq<Event<P>>)
    ensures events[..0] == [] && Enters(events[..0]) == [] && Emitted(events[..0]) == [] && NoRefusal(events[..0])
  {
  }

  /** A prefix of a trace, split behind its first event. */
  lemma PrefixOfEvents<P>(events: seq<Event<P>>, n: nat)
    requires 0 < n <= |events|
    ensures n < |events| ==> events[n] == events[1..][n - 1]
    ensures NoRefusal(events[..n]) <==> !events[0].Refuse? && NoRefusal(events[1..][..n - 1])
    ensures Enters(events[..n])
         == (if events[0].Enter? then [events[0].key] else []) + Enters(events[1..][..n - 1])
    ensures Emitted(events[..n])
         == (if events[0].Emit? then [events[0].value] else []) + Emitted(events[1..][..n - 1])
  {
    var rest := events[1..][..n - 1];
    assert events[..n][0] == events[0] && events[..n][1..] == rest;
    assert forall i :: 0 <= i < |rest| ==> rest[i] == events[..n][i + 1];
  }

  // --- one iteration of a walk ------------------------------------------------------------

  /** Popping a guarded node: the depth, then the cycle guard, then the read, then its values and its children. */
  lemma PopGuarded<P>(
      g: Graph<P>, ceiling: nat, budget: nat, cost: P -> nat, rest: seq<(nat, nat)>, id: nat, depth: nat,
      seen: set<nat>, spent: nat)
    requires g.Guarded(id)
    ensures Consume(ceiling, budget, cost, TraceStack(g, rest + [(id, depth)]), seen, spent)
         == if depth > g.maxDepth || g.Key(id) in seen || |seen| >= ceiling then Outcome([], Some(Limit))
            else if g.read(id).Err? then Outcome([], Some(g.read(id).error))
            else
              Consume(ceiling, budget, cost,
                      EmitAll(g.read(id).value.emits)
                      + TraceStack(g, rest + Reversed(g.read(id).value.children, depth + 1)),
                      seen + {g.Key(id)}, spent)
  {
    if depth > g.maxDepth {
      var events := TraceStack(g, rest + [(id, depth)]);
      assert (rest + [(id, depth)])[..|rest|] == rest;
      assert events[0] == Refuse(Limit);
    } else {
      PopTrace(g, rest, id, depth);
      var below := if g.read(id).Err? then [Refuse(g.read(id).error)] + TraceStack(g, rest)
                   else EmitAll(g.read(id).value.emits)
                        + TraceStack(g, rest + Reversed(g.read(id).value.children, depth + 1));
      hide TraceStack, Reversed, EmitAll;
      assert ([Enter(g.Key(id))] + below)[1..] == below;
    }
  }

  lemma PopTrace<P>(g: Graph<P>, rest: seq<(nat, nat)>, id: nat, depth: nat)
    requires g.Guarded(id) && depth <= g.maxDepth
    ensures TraceStack(g, rest + [(id, depth)])
         == [Enter(g.Key(id))]
            + if g.read(id).Err? then [Refuse(g.read(id).error)] + TraceStack(g, rest)
              else EmitAll(g.read(id).value.emits)
                   + TraceStack(g, rest + Reversed(g.read(id).value.children, depth + 1))
  {
    StackTop(g, rest, id, depth);
    GuardedTrace(g, id, depth);
    hide TraceStack, Trace, TraceAll, EmitAll, Reversed;
    var enter, below := [Enter(g.Key(id))], TraceStack(g, rest);
    if g.read(id).Ok? {
      var step := g.read(id).value;
      var emits, under := EmitAll(step.emits), TraceAll(g, step.children, depth + 1);
      PushReversed(g, rest, step.children, depth + 1);
      ConcatAssociates(enter, emits + under, below);
      ConcatAssociates(emits, under, below);
    } else {
      ConcatAssociates(enter, [Refuse(g.read(id).error)], below);
    }
  }

  lemma StackTop<P>(g: Graph<P>, rest: seq<(nat, nat)>, id: nat, depth: nat)
    ensures TraceStack(g, rest + [(id, depth)]) == Trace(g, id, depth) + TraceStack(g, rest)
  {
    hide Trace;
    assert (rest + [(id, depth)])[..|rest|] == rest;
  }

  lemma GuardedTrace<P>(g: Graph<P>, id: nat, depth: nat)
    requires g.Guarded(id) && depth <= g.maxDepth
    ensures Trace(g, id, depth)
         == [Enter(g.Key(id))]
            + if g.read(id).Err? then [Refuse(g.read(id).error)]
              else EmitAll(g.read(id).value.emits) + TraceAll(g, g.read(id).value.children, depth + 1)
  {
    hide TraceAll, EmitAll;
  }

  /**
   Popping an unguarded node: only the read, then its values and whatever is below it. Pushing the children without
   asking for a guard is safe because only guarded nodes have any.
   */
  lemma PopUnguarded<P>(g: Graph<P>, rest: seq<(nat, nat)>, id: nat, depth: nat)
    requires Sound(g) && !g.Guarded(id)
    ensures TraceStack(g, rest + [(id, depth)])
         == if g.read(id).Err? then [Refuse(g.read(id).error)] + TraceStack(g, rest)
            else EmitAll(g.read(id).value.emits)
                 + TraceStack(g, rest + Reversed(g.read(id).value.children, depth + 1))
  {
    var stack := rest + [(id, depth)];
    assert stack[..|stack| - 1] == rest;
    NothingPushed(rest, depth + 1);
  }

  /** What a guarded node adds to the keys entered, before those of its children and of the rest of the stack. */
  lemma EntersGuarded<P>(g: Graph<P>, rest: seq<(nat, nat)>, id: nat, depth: nat)
    requires g.Guarded(id) && depth <= g.maxDepth
    ensures Enters(TraceStack(g, rest + [(id, depth)]))
         == [g.Key(id)]
            + if g.read(id).Err? then Enters(TraceStack(g, rest))
              else Enters(TraceStack(g, rest + Reversed(g.read(id).value.children, depth + 1)))
  {
    PopTrace(g, rest, id, depth);
    hide TraceStack, Reversed, EmitAll, Enters;
    if g.read(id).Err? {
      EntersEnter(g.Key(id), [Refuse(g.read(id).error)] + TraceStack(g, rest));
      EntersRefuse(g.read(id).error, TraceStack(g, rest));
    } else {
      var below := TraceStack(g, rest + Reversed(g.read(id).value.children, depth + 1));
      EntersEnter(g.Key(id), EmitAll(g.read(id).value.emits) + below);
      EntersBehind(g.read(id).value.emits, below);
    }
  }

  /** An unguarded node adds none. */
  lemma EntersUnguarded<P>(g: Graph<P>, rest: seq<(nat, nat)>, id: nat, depth: nat)
    requires Sound(g) && !g.Guarded(id)
    ensures Enters(TraceStack(g, rest + [(id, depth)]))
         == if g.read(id).Err? then Enters(TraceStack(g, rest))
            else Enters(TraceStack(g, rest + Reversed(g.read(id).value.children, depth + 1)))
  {
    PopUnguarded(g, rest, id, depth);
    hide TraceStack, Reversed, EmitAll, Enters, Sound;
    if g.read(id).Err? {
      EntersRefuse(g.read(id).error, TraceStack(g, rest));
    } else {
      EntersBehind(g.read(id).value.emits, TraceStack(g, rest + Reversed(g.read(id).value.children, depth + 1)));
    }
  }

  lemma EntersEnter<P>(key: nat, events: seq<Event<P>>)
    ensures Enters([Enter(key)] + events) == [key] + Enters(events)
  {
    assert ([Enter(key)] + events)[1..] == events;
  }

  lemma EntersRefuse<P>(error: Error, events: seq<Event<P>>)
    ensures Enters([Refuse(error)] + events) == Enters(events)
  {
    assert ([Refuse(error)] + events)[1..] == events;
  }

  lemma EntersBehind<P>(values: seq<P>, events: seq<Event<P>>)
    ensures Enters(EmitAll(values) + events) == Enters(events)
  {
    EntersConcat(EmitAll(values), events);
    EmitAllEvents(values);
  }

  /** One value in front of a trace: the budget, then the rest. */
  lemma ConsumeOne<P>(ceiling: nat, budget: nat, cost: P -> nat, v: P, events: seq<Event<P>>, seen: set<nat>, spent: nat)
    ensures Consume(ceiling, budget, cost, EmitAll([v]) + events, seen, spent)
         == if spent + cost(v) > budget then Outcome([], Some(Limit))
            else
              var rest := Consume(ceiling, budget, cost, events, seen, spent + cost(v));
              Outcome([v] + rest.emitted, rest.error)
  {
    assert EmitAll([v]) == [Emit(v)] + EmitAll<P>([]);
    assert (EmitAll([v]) + events)[1..] == events;
  }

  lemma NothingPushed(below: seq<(nat, nat)>, depth: nat)
    ensures below + Reversed([], depth) == below
  {
  }

  lemma StartStack<P>(g: Graph<P>, id: nat, depth: nat)
    ensures TraceStack(g, [(id, depth)]) == Trace(g, id, depth)
  {
    assert [(id, depth)][..0] == [];
  }

  // --- the recursive flatten -------------------------------------------------------------

  /** The values below `id`, left to right. */
  function Flatten<P>(g: Graph<P>, id: nat, depth: nat): seq<P>
    decreases Levels(g.maxDepth, depth), 0
  {
    if g.Guarded(id) && depth > g.maxDepth then []
    else
      match g.read(id)
      case Err(e) => []
      case Ok(step) => step.emits + if g.Guarded(id) then FlattenAll(g, step.children, depth + 1) else []
  }

  function FlattenAll<P>(g: Graph<P>, ids: seq<nat>, depth: nat): seq<P>
    decreases Levels(g.maxDepth, depth), 1 + |ids|
  {
    if ids == [] then [] else Flatten(g, ids[0], depth) + FlattenAll(g, ids[1..], depth)
  }

  lemma {:induction false} EmittedConcat<P>(a: seq<Event<P>>, b: seq<Event<P>>)
    ensures Emitted(a + b) == Emitted(a) + Emitted(b)
  {
    if a == [] {
      assert a + b == b;
    } else {
      assert (a + b)[0] == a[0] && (a + b)[1..] == a[1..] + b;
      EmittedConcat(a[1..], b);
      ConcatAssociates(if a[0].Emit? then [a[0].value] else [], Emitted(a[1..]), Emitted(b));
    }
  }

  lemma {:induction false} EntersConcat<P>(a: seq<Event<P>>, b: seq<Event<P>>)
    ensures Enters(a + b) == Enters(a) + Enters(b)
  {
    if a == [] {
      assert a + b == b;
    } else {
      assert (a + b)[0] == a[0] && (a + b)[1..] == a[1..] + b;
      EntersConcat(a[1..], b);
      ConcatAssociates(if a[0].Enter? then [a[0].key] else [], Enters(a[1..]), Enters(b));
    }
  }

  lemma {:induction false} EmitAllEvents<P>(values: seq<P>)
    ensures Emitted(EmitAll(values)) == values && Enters(EmitAll(values)) == [] && NoRefusal(EmitAll(values))
  {
    if values != [] {
      EmitAllEvents(values[1..]);
      assert values == [values[0]] + values[1..];
    }
  }

  /** The trace emits the recursive flatten. */
  lemma {:induction false} TraceEmitsFlatten<P>(g: Graph<P>, id: nat, depth: nat)
    ensures Emitted(Trace(g, id, depth)) == Flatten(g, id, depth)
    decreases Levels(g.maxDepth, depth), 0
  {
    if !(g.Guarded(id) && depth > g.maxDepth) {
      var head := if g.Guarded(id) then [Enter(g.Key(id))] else [];
      assert Emitted<P>(head) == [];
      match g.read(id)
      case Err(e) =>
        EmittedConcat(head, [Refuse(e)]);
      case Ok(step) =>
        var below := if g.Guarded(id) then TraceAll(g, step.children, depth + 1) else [];
        EmittedConcat(head, EmitAll(step.emits) + below);
        EmittedConcat(EmitAll(step.emits), below);
        EmitAllEvents(step.emits);
        if g.Guarded(id) {
          TraceAllEmitsFlatten(g, step.children, depth + 1);
        }
    }
  }

  lemma {:induction false} TraceAllEmitsFlatten<P>(g: Graph<P>, ids: seq<nat>, depth: nat)
    ensures Emitted(TraceAll(g, ids, depth)) == FlattenAll(g, ids, depth)
    decreases Levels(g.maxDepth, depth), 1 + |ids|
  {
    if ids != [] {
      TraceEmitsFlatten(g, ids[0], depth);
      TraceAllEmitsFlatten(g, ids[1..], depth);
      EmittedConcat(Trace(g, ids[0], depth), TraceAll(g, ids[1..], depth));
    }
  }
}
