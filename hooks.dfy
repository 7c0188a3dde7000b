/**
 * Hooks: the state cells of component fibers, matched by position with the cells of the
 * fiber's alternate, and the program of component bodies they serve.
 */
module Hooks {
  import opened Wrappers
  import opened Elements
  import opened Fibers

  /**
   * The component functions of the application. For the component `id` rendered with
   * `props` and `children`: `initials` are the initial values of its useState calls, in
   * call order; `body` is the element it returns given the states those calls returned.
   * `apply` is what a queued action does to a state.
   */
  datatype Components = Components(
    initials: (nat, Props) -> seq<Value>,
    body: (nat, Props, seq<Element>, seq<Value>) -> Element,
    apply: (Action, Value) -> Value)

  /** The state after applying the queued actions, first queued first. */
  function Fold(apply: (Action, Value) -> Value, state: Value, queue: seq<Action>): Value
    decreases |queue|
  {
    if queue == [] then state else Fold(apply, apply(queue[0], state), queue[1..])
  }

  /** An action queued last is applied last. */
  lemma {:induction false} FoldAppend(apply: (Action, Value) -> Value, state: Value, queue: seq<Action>, a: Action)
    ensures Fold(apply, state, queue + [a]) == apply(a, Fold(apply, state, queue))
    decreases |queue|
  {
    if queue == [] {
      assert [] + [a] == [a];
      assert Fold(apply, apply(a, state), []) == apply(a, state);
    } else {
      assert (queue + [a])[1..] == queue[1..] + [a];
      FoldAppend(apply, apply(queue[0], state), queue[1..], a);
    }
  }

  /** Runs the queued actions one by one over the stored state. */
  method ApplyQueue(apply: (Action, Value) -> Value, state: Value, actions: seq<Action>) returns (s: Value)
    ensures s == Fold(apply, state, actions)
  {
    s := state;
    var k := 0;
    while k < |actions|
      invariant k <= |actions|
      invariant Fold(apply, s, actions[k..]) == Fold(apply, state, actions)
    {
      assert actions[k..][1..] == actions[k + 1..];
      s := apply(actions[k], s);
      k := k + 1;
    }
    assert actions[k..] == [];
  }

  /** The hooks of the fiber's alternate, or none. */
  function AltHooks(fibers: seq<Fiber>, f: nat): seq<Hook>
    requires f < |fibers|
  {
    match fibers[f].alternate
    case Some(a) => if a < |fibers| then fibers[a].hooks else []
    case None => []
  }

  /** The state useState returns at position `index`: the old cell's state with its queue
      applied when the old render had a cell there, the initial value otherwise. */
  function ResolveState(apply: (Action, Value) -> Value, prev: seq<Hook>, index: nat, initial: Value): Value {
    if index < |prev| then Fold(apply, prev[index].state, prev[index].queue) else initial
  }

  /** The states a component's useState calls return, position by position. */
  function ResolvedStates(apply: (Action, Value) -> Value, prev: seq<Hook>, initials: seq<Value>): (r: seq<Value>)
    ensures |r| == |initials|
    ensures prev == [] ==> r == initials
  {
    seq(|initials|, k requires 0 <= k < |initials| => ResolveState(apply, prev, k, initials[k]))
  }

  /** The cells a render leaves on its fiber: one per state, with nothing queued. */
  function FreshHooks(states: seq<Value>): (r: seq<Hook>)
    ensures |r| == |states|
    ensures forall k :: 0 <= k < |r| ==> r[k].state == states[k] && r[k].queue == []
  {
    seq(|states|, k requires 0 <= k < |states| => Hook(states[k], []))
  }

  /** The cells after setState queued `a` on cell `i`. */
  function Enqueued(hooks: seq<Hook>, i: nat, a: Action): (r: seq<Hook>)
    requires i < |hooks|
    ensures |r| == |hooks| && r[i].state == hooks[i].state && r[i].queue == hooks[i].queue + [a]
    ensures forall j :: 0 <= j < |hooks| && j != i ==> r[j] == hooks[j]
  {
    hooks[i := hooks[i].(queue := hooks[i].queue + [a])]
  }

  /** Positional hook stability: after setState queued `a` on cell `i`, the next render's
      useState at position `i` returns the state it would have returned, with `a` applied
      last, and every other position returns exactly what it would have returned. */
  lemma {:induction false} QueuedActionSeenByNextRender(apply: (Action, Value) -> Value, hooks: seq<Hook>, i: nat, a: Action, initials: seq<Value>)
    requires i < |hooks|
    ensures forall k :: 0 <= k < |initials| && k != i ==>
      ResolvedStates(apply, Enqueued(hooks, i, a), initials)[k] == ResolvedStates(apply, hooks, initials)[k]
    ensures i < |initials| ==>
      ResolvedStates(apply, Enqueued(hooks, i, a), initials)[i] == apply(a, ResolvedStates(apply, hooks, initials)[i])
  {
    FoldAppend(apply, hooks[i].state, hooks[i].queue, a);
  }
}
