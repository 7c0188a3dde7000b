/**
 * Reconciliation (`reconcileChildren`): the new elements of a work-in-progress fiber are
 * matched by position against the children of its alternate. A same-kind pair yields an
 * UPDATE fiber reusing the old realized node; a new element of another kind yields a
 * PLACEMENT fiber; an old fiber with another kind or no counterpart is tagged DELETION and
 * queued for removal. New fibers are appended to the arena in element order.
 */
module Reconciliation {
  import opened Wrappers
  import opened Elements
  import opened Fibers

  function Min(a: nat, b: nat): nat { if a <= b then a else b }
  function Max(a: nat, b: nat): nat { if a <= b then b else a }

  predicate Increasing(s: seq<nat>) {
    forall a, b :: 0 <= a < b < |s| ==> s[a] < s[b]
  }

  /** Every fiber of the chain is in an arena of `n` fibers. */
  predicate ChainIn(chain: seq<nat>, n: nat) {
    forall k :: 0 <= k < |chain| ==> chain[k] < n
  }

  /** `chain` follows sibling links in `fibers` and ends at a fiber without a sibling. */
  ghost predicate SiblingLinked(fibers: seq<Fiber>, chain: seq<nat>) {
    && ChainIn(chain, |fibers|)
    && (forall a, b :: 0 <= a && b == a + 1 && b < |chain| ==> fibers[chain[a]].sibling == Some(chain[b]))
    && (|chain| > 0 ==> fibers[chain[|chain| - 1]].sibling.None?)
  }

  /** The fibers reached from `first` by sibling links, in order. */
  function SiblingChain(fibers: seq<Fiber>, first: Option<nat>): (r: seq<nat>)
    requires WellLinked(fibers) && (first.Some? ==> first.value < |fibers|)
    ensures first.None? <==> r == []
    ensures first.Some? ==> r[0] == first.value
    decreases if first.Some? then |fibers| - first.value else 0
  {
    match first
    case None => []
    case Some(f) =>
      assert LinkedAt(fibers, f);
      [f] + SiblingChain(fibers, fibers[f].sibling)
  }

  /** A sibling chain follows sibling links to its end, and every fiber after the first has
      a parent. */
  lemma {:induction false} SiblingChainLinked(fibers: seq<Fiber>, first: Option<nat>)
    requires WellLinked(fibers) && (first.Some? ==> first.value < |fibers|)
    ensures SiblingLinked(fibers, SiblingChain(fibers, first))
    ensures forall k :: 0 < k < |SiblingChain(fibers, first)| ==> fibers[SiblingChain(fibers, first)[k]].parent.Some?
    decreases if first.Some? then |fibers| - first.value else 0
  {
    if first.Some? {
      var f := first.value;
      assert LinkedAt(fibers, f);
      var rest := SiblingChain(fibers, fibers[f].sibling);
      SiblingChainLinked(fibers, fibers[f].sibling);
      var r := SiblingChain(fibers, first);
      assert r == [f] + rest;
      forall a, b | 0 <= a && b == a + 1 && b < |r| ensures fibers[r[a]].sibling == Some(r[b]) {
        if a > 0 {
          assert r[a] == rest[a - 1] && r[b] == rest[b - 1];
        }
      }
      forall k | 0 < k < |r| ensures fibers[r[k]].parent.Some? {
        assert r[k] == rest[k - 1];
      }
    }
  }

  /** A sibling chain only climbs in the arena. */
  lemma {:induction false} SiblingChainIncreasing(fibers: seq<Fiber>, first: Option<nat>)
    requires WellLinked(fibers) && (first.Some? ==> first.value < |fibers|)
    ensures Increasing(SiblingChain(fibers, first))
    ensures forall k :: 0 <= k < |SiblingChain(fibers, first)| ==> first.value <= SiblingChain(fibers, first)[k]
    decreases if first.Some? then |fibers| - first.value else 0
  {
    if first.Some? {
      var f := first.value;
      assert LinkedAt(fibers, f);
      var rest := SiblingChain(fibers, fibers[f].sibling);
      SiblingChainIncreasing(fibers, fibers[f].sibling);
      var r := SiblingChain(fibers, first);
      assert r == [f] + rest;
      forall a, b | 0 <= a < b < |r| ensures r[a] < r[b] {
        assert r[b] == rest[b - 1];
        if a > 0 {
          assert r[a] == rest[a - 1];
        }
      }
      forall k | 0 <= k < |r| ensures f <= r[k] {
        if k > 0 {
          assert r[k] == rest[k - 1];
        }
      }
    }
  }

  /** The children of the fiber's alternate: the old fibers the new elements are matched against. */
  function OldChildren(fibers: seq<Fiber>, wip: nat): (r: seq<nat>)
    requires WellLinked(fibers) && wip < |fibers|
    ensures SiblingLinked(fibers, r) && Increasing(r)
    ensures forall k :: 0 <= k < |r| ==> fibers[r[k]].parent.Some?
  {
    assert LinkedAt(fibers, wip);
    match fibers[wip].alternate
    case None => []
    case Some(a) =>
      assert LinkedAt(fibers, a);
      SiblingChainLinked(fibers, fibers[a].child);
      SiblingChainIncreasing(fibers, fibers[a].child);
      SiblingChain(fibers, fibers[a].child)
  }

  /** Position `j` pairs an old fiber and a new element of the same kind. */
  predicate SameKind(fibers: seq<Fiber>, chain: seq<nat>, elements: seq<Element>, j: nat) {
    j < |chain| && j < |elements| && chain[j] < |fibers| && fibers[chain[j]].kind == Some(elements[j].kind)
  }

  /** The old fiber at position `j`, if it is tagged for deletion. */
  function DoomedAt(fibers: seq<Fiber>, chain: seq<nat>, elements: seq<Element>, j: nat): seq<nat>
    requires j < |chain|
  {
    if SameKind(fibers, chain, elements, j) then [] else [chain[j]]
  }

  /** The old fibers at positions before `k` that are tagged for deletion, in order. */
  function DoomedUpTo(fibers: seq<Fiber>, chain: seq<nat>, elements: seq<Element>, k: nat): seq<nat>
    requires k <= |chain|
  {
    if k == 0 then [] else DoomedUpTo(fibers, chain, elements, k - 1) + DoomedAt(fibers, chain, elements, k - 1)
  }

  /** All the old children tagged for deletion. */
  function Doomed(fibers: seq<Fiber>, wip: nat, elements: seq<Element>): seq<nat>
    requires WellLinked(fibers) && wip < |fibers|
  {
    var chain := OldChildren(fibers, wip);
    DoomedUpTo(fibers, chain, elements, |chain|)
  }

  /** The number of steps of the positional walk. */
  function Steps(chain: seq<nat>, elements: seq<Element>): nat {
    Max(|chain|, |elements|)
  }

  /** The new fiber for element `j`, once `produced` new fibers exist. The arena held
      `|before|` fibers when the walk began, so it lives at `|before| + j`. */
  function NewFiber(before: seq<Fiber>, wip: nat, chain: seq<nat>, elements: seq<Element>, j: nat, produced: nat): Fiber
    requires j < |elements|
  {
    var e := elements[j];
    var sibling := if j + 1 < produced then Some(|before| + j + 1) else None;
    if SameKind(before, chain, elements, j) then
      Fiber(Some(e.kind), e.props, e.children, before[chain[j]].dom, Some(wip), None, sibling, Some(chain[j]), Update, [])
    else
      Fiber(Some(e.kind), e.props, e.children, None, Some(wip), None, sibling, None, Placement, [])
  }

  /** The `child` link of the wip fiber after `k` steps: set at the first step, to the first
      new fiber or to nothing when there are no elements. */
  function WipChild(before: seq<Fiber>, wip: nat, elements: seq<Element>, k: nat): Option<nat>
    requires wip < |before|
  {
    if k == 0 then before[wip].child
    else if |elements| > 0 then Some(|before|)
    else None
  }

  /** An old fiber after `k` steps: tagged DELETION if doomed so far; the wip fiber gets its child. */
  function OldFiberAt(before: seq<Fiber>, wip: nat, chain: seq<nat>, elements: seq<Element>, k: nat, i: nat): Fiber
    requires wip < |before| && i < |before| && k <= Steps(chain, elements)
  {
    var doomed := DoomedUpTo(before, chain, elements, Min(k, |chain|));
    before[i].(effect := if i in doomed then Deletion else before[i].effect,
               child := if i == wip then WipChild(before, wip, elements, k) else before[i].child)
  }

  /** The arena after `k` steps of the walk, position by position. */
  function ReconcileAt(before: seq<Fiber>, wip: nat, chain: seq<nat>, elements: seq<Element>, k: nat): (r: seq<Fiber>)
    requires wip < |before| && k <= Steps(chain, elements)
    ensures |r| == |before| + Min(k, |elements|)
  {
    var produced := Min(k, |elements|);
    seq(|before| + produced, i requires 0 <= i < |before| + produced =>
      if i < |before| then OldFiberAt(before, wip, chain, elements, k, i)
      else NewFiber(before, wip, chain, elements, i - |before|, produced))
  }

  /** The arena after reconciling `wip` against `elements`. */
  function Reconciled(before: seq<Fiber>, wip: nat, elements: seq<Element>): (r: seq<Fiber>)
    requires WellLinked(before) && wip < |before|
    ensures |r| == |before| + |elements|
  {
    var chain := OldChildren(before, wip);
    ReconcileAt(before, wip, chain, elements, Steps(chain, elements))
  }

  /** One step of the walk at position `k`, applied to the arena `a`: append the new fiber
      for element `k`, tag the old fiber at `k` if doomed, and link the new fiber as the wip
      fiber's child (first step) or as the previous new fiber's sibling. */
  function Step(a: seq<Fiber>, before: seq<Fiber>, wip: nat, chain: seq<nat>, elements: seq<Element>, k: nat): (r: seq<Fiber>)
    requires wip < |a| && (k < |chain| ==> chain[k] < |a|) && (0 < k <= |elements| ==> |before| + k - 1 < |a|)
    ensures |r| == if k < |elements| then |a| + 1 else |a|
  {
    var a1 := if k < |elements| then a + [NewFiber(before, wip, chain, elements, k, k + 1)] else a;
    var a2 := if k < |chain| && !SameKind(before, chain, elements, k) then a1[chain[k] := a1[chain[k]].(effect := Deletion)] else a1;
    var created := if k < |elements| then Some(|before| + k) else None;
    if k == 0 then a2[wip := a2[wip].(child := created)]
    else if k < |elements| then a2[|before| + k - 1 := a2[|before| + k - 1].(sibling := created)]
    else a2
  }

  /** The tag and link one step gives an old fiber `f` at index `i`. */
  function OldStepped(f: Fiber, before: seq<Fiber>, wip: nat, chain: seq<nat>, elements: seq<Element>, k: nat, i: nat): Fiber {
    f.(effect := if k < |chain| && i == chain[k] && !SameKind(before, chain, elements, k) then Deletion else f.effect,
       child := if k == 0 && i == wip then (if k < |elements| then Some(|before|) else None) else f.child)
  }

  lemma StepOnOld(a: seq<Fiber>, before: seq<Fiber>, wip: nat, chain: seq<nat>, elements: seq<Element>, k: nat, i: nat)
    requires wip < |before| <= |a| && i < |before| && (k < |chain| ==> chain[k] < |before|)
    requires 0 < k <= |elements| ==> |before| + k - 1 < |a|
    ensures i < |Step(a, before, wip, chain, elements, k)|
    ensures Step(a, before, wip, chain, elements, k)[i] == OldStepped(a[i], before, wip, chain, elements, k, i)
  {
  }

  lemma OldFiberStep(before: seq<Fiber>, wip: nat, chain: seq<nat>, elements: seq<Element>, k: nat, i: nat)
    requires wip < |before| && i < |before| && k < Steps(chain, elements)
    ensures OldFiberAt(before, wip, chain, elements, k + 1, i) ==
      OldStepped(OldFiberAt(before, wip, chain, elements, k, i), before, wip, chain, elements, k, i)
  {
    var d0 := DoomedUpTo(before, chain, elements, Min(k, |chain|));
    var d1 := DoomedUpTo(before, chain, elements, Min(k + 1, |chain|));
    if k < |chain| {
      assert d1 == d0 + DoomedAt(before, chain, elements, k);
    } else {
      assert d1 == d0;
    }
  }

  lemma StepOnNew(a: seq<Fiber>, before: seq<Fiber>, wip: nat, chain: seq<nat>, elements: seq<Element>, k: nat, i: nat)
    requires wip < |before| && |a| == |before| + Min(k, |elements|) && (k < |chain| ==> chain[k] < |before|)
    requires |before| <= i < |before| + Min(k + 1, |elements|)
    ensures i < |Step(a, before, wip, chain, elements, k)|
    ensures Step(a, before, wip, chain, elements, k)[i] ==
      if i == |a| then NewFiber(before, wip, chain, elements, k, k + 1)
      else if k < |elements| && i + 1 == |a| then a[i].(sibling := Some(|a|))
      else a[i]
  {
  }

  lemma NewFiberStep(before: seq<Fiber>, wip: nat, chain: seq<nat>, elements: seq<Element>, k: nat, j: nat)
    requires j < Min(k, |elements|)
    ensures NewFiber(before, wip, chain, elements, j, Min(k + 1, |elements|)) ==
      if k < |elements| && j + 1 == k then NewFiber(before, wip, chain, elements, j, Min(k, |elements|)).(sibling := Some(|before| + k))
      else NewFiber(before, wip, chain, elements, j, Min(k, |elements|))
  {
  }

  /** One step of the walk takes the arena after `k` steps to the arena after `k + 1`. */
  lemma ReconcileStep(before: seq<Fiber>, wip: nat, chain: seq<nat>, elements: seq<Element>, k: nat)
    requires wip < |before| && ChainIn(chain, |before|) && k < Steps(chain, elements)
    ensures ReconcileAt(before, wip, chain, elements, k + 1) ==
      Step(ReconcileAt(before, wip, chain, elements, k), before, wip, chain, elements, k)
  {
    var a := ReconcileAt(before, wip, chain, elements, k);
    var b := ReconcileAt(before, wip, chain, elements, k + 1);
    var s := Step(a, before, wip, chain, elements, k);
    var base := |before|;
    forall i | 0 <= i < |b| ensures b[i] == s[i] {
      if i < base {
        StepOnOld(a, before, wip, chain, elements, k, i);
        OldFiberStep(before, wip, chain, elements, k, i);
      } else {
        StepOnNew(a, before, wip, chain, elements, k, i);
        if i - base < Min(k, |elements|) {
          NewFiberStep(before, wip, chain, elements, k, i - base);
        }
      }
    }
    assert |b| == |s|;
  }

  /** During the walk an old fiber keeps its kind, realized node and sibling link. */
  lemma OldFieldsKept(before: seq<Fiber>, wip: nat, chain: seq<nat>, elements: seq<Element>, k: nat, i: nat)
    requires wip < |before| && k <= Steps(chain, elements) && i < |before|
    ensures ReconcileAt(before, wip, chain, elements, k)[i].kind == before[i].kind
    ensures ReconcileAt(before, wip, chain, elements, k)[i].dom == before[i].dom
    ensures ReconcileAt(before, wip, chain, elements, k)[i].sibling == before[i].sibling
  {
    assert ReconcileAt(before, wip, chain, elements, k)[i] == OldFiberAt(before, wip, chain, elements, k, i);
  }

  lemma DoomedStep(fibers: seq<Fiber>, chain: seq<nat>, elements: seq<Element>, k: nat)
    ensures DoomedUpTo(fibers, chain, elements, Min(k + 1, |chain|)) ==
      if k < |chain| then DoomedUpTo(fibers, chain, elements, Min(k, |chain|)) + DoomedAt(fibers, chain, elements, k)
      else DoomedUpTo(fibers, chain, elements, Min(k, |chain|))
  {
  }

  /** The arena after `k` steps of the walk, step by step. */
  function ReconcileWalk(before: seq<Fiber>, wip: nat, chain: seq<nat>, elements: seq<Element>, k: nat): (r: seq<Fiber>)
    requires wip < |before| && ChainIn(chain, |before|) && k <= Steps(chain, elements)
    ensures |r| == |before| + Min(k, |elements|)
    decreases k
  {
    if k == 0 then before else Step(ReconcileWalk(before, wip, chain, elements, k - 1), before, wip, chain, elements, k - 1)
  }

  /** The step-by-step walk reaches the closed form after every number of steps. */
  lemma {:induction false} WalkIsClosed(before: seq<Fiber>, wip: nat, chain: seq<nat>, elements: seq<Element>, k: nat)
    requires wip < |before| && ChainIn(chain, |before|) && k <= Steps(chain, elements)
    ensures ReconcileWalk(before, wip, chain, elements, k) == ReconcileAt(before, wip, chain, elements, k)
  {
    if k == 0 {
      ReconcileAtStart(before, wip, chain, elements);
    } else {
      WalkIsClosed(before, wip, chain, elements, k - 1);
      ReconcileStep(before, wip, chain, elements, k - 1);
    }
  }

  /** Before the first position nothing has changed. */
  lemma ReconcileAtStart(before: seq<Fiber>, wip: nat, chain: seq<nat>, elements: seq<Element>)
    requires wip < |before|
    ensures ReconcileAt(before, wip, chain, elements, 0) == before
  {
    var a := ReconcileAt(before, wip, chain, elements, 0);
    forall i | 0 <= i < |before| ensures a[i] == before[i] {
      assert a[i] == OldFiberAt(before, wip, chain, elements, 0, i);
    }
  }

  /**
   * One position of the walk: compare the element and the old fiber at `index`, create the
   * new fiber (UPDATE or PLACEMENT), tag the old fiber (DELETION), advance to the next old
   * fiber and link the new fiber as the wip fiber's child or the previous one's sibling.
   */
  method ReconcilePosition(fibers: seq<Fiber>, wip: nat, ghost chain: seq<nat>, elements: seq<Element>, index: nat,
                           arena: seq<Fiber>, queue: seq<nat>, oldFiber: Option<nat>, prevSibling: Option<nat>)
    returns (nextArena: seq<Fiber>, nextQueue: seq<nat>, nextOld: Option<nat>, newFiber: Option<nat>)
    requires wip < |fibers| && ChainIn(chain, |fibers|) && |arena| == |fibers| + Min(index, |elements|)
    requires oldFiber == if index < |chain| then Some(chain[index]) else None
    requires prevSibling == if 0 < index <= |elements| then Some(|fibers| + index - 1) else None
    ensures nextArena == Step(arena, fibers, wip, chain, elements, index)
    ensures nextQueue == if index < |chain| then queue + DoomedAt(fibers, chain, elements, index) else queue
    ensures nextOld == if oldFiber.Some? then fibers[oldFiber.value].sibling else None
    ensures newFiber == if index < |elements| then Some(|fibers| + index) else None
  {
    nextArena, nextQueue := arena, queue;
    var element: Option<Element> := if index < |elements| then Some(elements[index]) else None;
    // The type, dom and sibling of an old fiber are never changed by the walk, so they are read
    // from the arena as it was when the walk began.
    var sameType := oldFiber.Some? && element.Some? && fibers[oldFiber.value].kind == Some(element.value.kind);
    assert sameType == SameKind(fibers, chain, elements, index);
    newFiber := None;
    if sameType {
      newFiber := Some(|nextArena|);
      nextArena := nextArena + [Fiber(Some(element.value.kind), element.value.props, element.value.children,
        fibers[oldFiber.value].dom, Some(wip), None, None, oldFiber, Update, [])];
    }
    if element.Some? && !sameType {
      newFiber := Some(|nextArena|);
      nextArena := nextArena + [Fiber(Some(element.value.kind), element.value.props, element.value.children,
        None, Some(wip), None, None, None, Placement, [])];
    }
    if oldFiber.Some? && !sameType {
      nextArena := nextArena[oldFiber.value := nextArena[oldFiber.value].(effect := Deletion)];
      nextQueue := nextQueue + [oldFiber.value];
    }
    nextOld := oldFiber;
    if oldFiber.Some? {
      nextOld := fibers[oldFiber.value].sibling;
    }
    if index == 0 {
      nextArena := nextArena[wip := nextArena[wip].(child := newFiber)];
    } else if element.Some? {
      nextArena := nextArena[prevSibling.value := nextArena[prevSibling.value].(sibling := newFiber)];
    }
    assert nextArena == Step(arena, fibers, wip, chain, elements, index);
  }

  /** Where the walk of reconcileChildren stands after `index` positions. */
  ghost predicate WalkAt(fibers: seq<Fiber>, deletions: seq<nat>, wip: nat, chain: seq<nat>, elements: seq<Element>, index: nat,
                         arena: seq<Fiber>, queue: seq<nat>, oldFiber: Option<nat>, prevSibling: Option<nat>)
  {
    && wip < |fibers| && SiblingLinked(fibers, chain) && index <= Steps(chain, elements)
    && oldFiber == (if index < |chain| then Some(chain[index]) else None)
    && prevSibling == (if 0 < index <= |elements| then Some(|fibers| + index - 1) else None)
    && arena == ReconcileWalk(fibers, wip, chain, elements, index)
    && queue == deletions + DoomedUpTo(fibers, chain, elements, Min(index, |chain|))
  }

  /** One position moves the walk from `index` to `index + 1`. */
  lemma WalkAdvance(fibers: seq<Fiber>, deletions: seq<nat>, wip: nat, chain: seq<nat>, elements: seq<Element>, index: nat,
                    arena: seq<Fiber>, queue: seq<nat>, oldFiber: Option<nat>, prevSibling: Option<nat>,
                    nextArena: seq<Fiber>, nextQueue: seq<nat>, nextOld: Option<nat>, newFiber: Option<nat>)
    requires WalkAt(fibers, deletions, wip, chain, elements, index, arena, queue, oldFiber, prevSibling)
    requires index < Steps(chain, elements)
    requires nextArena == Step(arena, fibers, wip, chain, elements, index)
    requires nextQueue == if index < |chain| then queue + DoomedAt(fibers, chain, elements, index) else queue
    requires nextOld == if oldFiber.Some? then fibers[oldFiber.value].sibling else None
    requires newFiber == if index < |elements| then Some(|fibers| + index) else None
    ensures WalkAt(fibers, deletions, wip, chain, elements, index + 1, nextArena, nextQueue, nextOld, newFiber)
  {
    QueueAdvance(fibers, deletions, chain, elements, index, queue, nextQueue);
    NextOldFiber(fibers, chain, index, oldFiber, nextOld);
  }

  /** The deletion queue after one more position. */
  lemma QueueAdvance(fibers: seq<Fiber>, deletions: seq<nat>, chain: seq<nat>, elements: seq<Element>, index: nat,
                     queue: seq<nat>, nextQueue: seq<nat>)
    requires queue == deletions + DoomedUpTo(fibers, chain, elements, Min(index, |chain|))
    requires nextQueue == if index < |chain| then queue + DoomedAt(fibers, chain, elements, index) else queue
    ensures nextQueue == deletions + DoomedUpTo(fibers, chain, elements, Min(index + 1, |chain|))
  {
    DoomedStep(fibers, chain, elements, index);
    if index < |chain| {
      var d := DoomedUpTo(fibers, chain, elements, index);
      assert nextQueue == deletions + (d + DoomedAt(fibers, chain, elements, index));
    }
  }

  /** The old fiber after one more position is the next one along the sibling chain. */
  lemma NextOldFiber(fibers: seq<Fiber>, chain: seq<nat>, index: nat, oldFiber: Option<nat>, nextOld: Option<nat>)
    requires SiblingLinked(fibers, chain)
    requires oldFiber == if index < |chain| then Some(chain[index]) else None
    requires nextOld == if oldFiber.Some? then fibers[oldFiber.value].sibling else None
    ensures nextOld == if index + 1 < |chain| then Some(chain[index + 1]) else None
  {
    if index + 1 < |chain| {
      assert fibers[chain[index]].sibling == Some(chain[index + 1]);
    }
  }

  /** The walk of reconcileChildren over the positions, starting at the first old child. */
  method WalkPositions(fibers: seq<Fiber>, deletions: seq<nat>, wip: nat, ghost chain: seq<nat>, elements: seq<Element>, first: Option<nat>)
    returns (arena: seq<Fiber>, queue: seq<nat>)
    requires wip < |fibers| && SiblingLinked(fibers, chain)
    requires first == if 0 < |chain| then Some(chain[0]) else None
    ensures arena == ReconcileWalk(fibers, wip, chain, elements, Steps(chain, elements))
    ensures queue == deletions + DoomedUpTo(fibers, chain, elements, |chain|)
  {
    arena, queue := fibers, deletions;
    var index := 0;
    var oldFiber: Option<nat> := first;
    var prevSibling: Option<nat> := None;
    while index < |elements| || oldFiber.Some?
      invariant WalkAt(fibers, deletions, wip, chain, elements, index, arena, queue, oldFiber, prevSibling)
      decreases Steps(chain, elements) - index
    {
      var nextArena, nextQueue, nextOld, newFiber := ReconcilePosition(fibers, wip, chain, elements, index, arena, queue, oldFiber, prevSibling);
      WalkAdvance(fibers, deletions, wip, chain, elements, index, arena, queue, oldFiber, prevSibling, nextArena, nextQueue, nextOld, newFiber);
      arena, queue, oldFiber, prevSibling := nextArena, nextQueue, nextOld, newFiber;
      index := index + 1;
    }
  }

  /**
   * reconcileChildren: one positional walk over the new elements and the old fibers at once,
   * starting from the first child of the fiber's alternate. Returns the arena with the new
   * fibers appended and linked, the old fibers tagged, and the deletion queue extended with
   * the doomed old fibers.
   */
  method ReconcileChildren(fibers: seq<Fiber>, deletions: seq<nat>, wip: nat, elements: seq<Element>)
    returns (arena: seq<Fiber>, queue: seq<nat>)
    requires WellLinked(fibers) && wip < |fibers|
    ensures arena == Reconciled(fibers, wip, elements)
    ensures queue == deletions + Doomed(fibers, wip, elements)
  {
    assert LinkedAt(fibers, wip);
    var oldFiber: Option<nat> := None;
    if fibers[wip].alternate.Some? {
      assert LinkedAt(fibers, fibers[wip].alternate.value);
      oldFiber := fibers[fibers[wip].alternate.value].child;
    }
    ghost var chain := OldChildren(fibers, wip);
    arena, queue := WalkPositions(fibers, deletions, wip, chain, elements, oldFiber);
    WalkIsClosed(fibers, wip, chain, elements, Steps(chain, elements));
  }

  /** Only the effect tags and the `child` link of existing fibers may differ. */
  predicate OnlyTagsAndChild(before: seq<Fiber>, after: seq<Fiber>) {
    |before| <= |after| &&
    forall i :: 0 <= i < |before| ==> after[i] == before[i].(effect := after[i].effect, child := after[i].child)
  }

  lemma OldFiberLinked(before: seq<Fiber>, wip: nat, elements: seq<Element>, i: nat)
    requires WellLinked(before) && wip < |before| && i < |before|
    ensures LinkedAt(Reconciled(before, wip, elements), i)
    ensures Reconciled(before, wip, elements)[i] == before[i].(effect := Reconciled(before, wip, elements)[i].effect,
                                                             child := Reconciled(before, wip, elements)[i].child)
  {
    var chain := OldChildren(before, wip);
    var k := Steps(chain, elements);
    var after := Reconciled(before, wip, elements);
    var base := |before|;
    assert after[i] == OldFiberAt(before, wip, chain, elements, k, i);
    assert LinkedAt(before, i);
    if before[i].child.Some? {
      var c := before[i].child.value;
      assert after[c] == OldFiberAt(before, wip, chain, elements, k, c);
    }
    if before[i].sibling.Some? {
      var c := before[i].sibling.value;
      assert after[c] == OldFiberAt(before, wip, chain, elements, k, c);
    }
    if i == wip && 0 < k && |elements| > 0 {
      assert after[base] == NewFiber(before, wip, chain, elements, 0, |elements|);
    }
  }

  lemma NewFiberLinked(before: seq<Fiber>, wip: nat, elements: seq<Element>, i: nat)
    requires WellLinked(before) && wip < |before| && |before| <= i < |before| + |elements|
    ensures LinkedAt(Reconciled(before, wip, elements), i)
    ensures var f := Reconciled(before, wip, elements)[i];
      f.dom.Some? ==> f.alternate.Some? && f.alternate.value < |before| && f.dom == before[f.alternate.value].dom
  {
    var chain := OldChildren(before, wip);
    var after := Reconciled(before, wip, elements);
    var j := i - |before|;
    assert after[i] == NewFiber(before, wip, chain, elements, j, |elements|);
    if j + 1 < |elements| {
      assert after[i + 1] == NewFiber(before, wip, chain, elements, j + 1, |elements|);
    }
  }

  /** Reconciliation keeps the arena well linked and every realized-node handle valid, and
      changes nothing in existing fibers but the tags of doomed ones and the wip child. */
  lemma ReconcileKeepsLinks(before: seq<Fiber>, wip: nat, elements: seq<Element>)
    requires WellLinked(before) && wip < |before|
    ensures WellLinked(Reconciled(before, wip, elements))
    ensures OnlyTagsAndChild(before, Reconciled(before, wip, elements))
  {
    var after := Reconciled(before, wip, elements);
    forall i | 0 <= i < |after| ensures LinkedAt(after, i) {
      if i < |before| {
        OldFiberLinked(before, wip, elements, i);
      } else {
        NewFiberLinked(before, wip, elements, i);
      }
    }
    forall i | 0 <= i < |before| ensures after[i] == before[i].(effect := after[i].effect, child := after[i].child) {
      OldFiberLinked(before, wip, elements, i);
    }
  }

  /** Every realized-node handle after reconciliation was already held by an existing fiber. */
  lemma ReconcileKeepsDoms(before: seq<Fiber>, wip: nat, elements: seq<Element>, n: nat)
    requires WellLinked(before) && wip < |before| && DomsIn(before, n)
    ensures DomsIn(Reconciled(before, wip, elements), n)
  {
    var after := Reconciled(before, wip, elements);
    forall i | 0 <= i < |after| ensures after[i].dom.Some? ==> after[i].dom.value < n {
      if i < |before| {
        OldFiberLinked(before, wip, elements, i);
      } else {
        NewFiberLinked(before, wip, elements, i);
      }
    }
  }

  /** Strict positional matching: the fiber for element `j` has the element's kind, props and
      children and the wip fiber as parent; it is an UPDATE of the old child at position `j`,
      reusing its realized node, exactly when that child exists and has the same kind, and a
      PLACEMENT with no node and no alternate otherwise. */
  lemma ReconcileByPosition(before: seq<Fiber>, wip: nat, elements: seq<Element>, j: nat)
    requires WellLinked(before) && wip < |before| && j < |elements|
    ensures var f := Reconciled(before, wip, elements)[|before| + j];
      f.kind == Some(elements[j].kind) && f.props == elements[j].props && f.children == elements[j].children &&
      f.parent == Some(wip) && f.hooks == []
    ensures var f := Reconciled(before, wip, elements)[|before| + j];
      var prior := OldChildren(before, wip);
      if j < |prior| && before[prior[j]].kind == Some(elements[j].kind) then
        f.effect == Update && f.dom == before[prior[j]].dom && f.alternate == Some(prior[j])
      else
        f.effect == Placement && f.dom.None? && f.alternate.None?
  {
    var chain := OldChildren(before, wip);
    assert Reconciled(before, wip, elements)[|before| + j] == NewFiber(before, wip, chain, elements, j, |elements|);
  }

  /** The doomed old fibers up to position `k` are exactly the old fibers at positions before
      `k` whose kind differs from the element there, or which have no element. */
  lemma {:induction false} DoomedUpToExactly(fibers: seq<Fiber>, chain: seq<nat>, elements: seq<Element>, k: nat)
    requires k <= |chain| && Increasing(chain)
    ensures forall x :: x in DoomedUpTo(fibers, chain, elements, k) ==> x in chain[..k]
    ensures forall j :: 0 <= j < k ==> (chain[j] in DoomedUpTo(fibers, chain, elements, k) <==> !SameKind(fibers, chain, elements, j))
  {
    if k > 0 {
      DoomedUpToExactly(fibers, chain, elements, k - 1);
      var d := DoomedUpTo(fibers, chain, elements, k - 1);
      assert DoomedUpTo(fibers, chain, elements, k) == d + DoomedAt(fibers, chain, elements, k - 1);
      assert chain[..k] == chain[..k - 1] + [chain[k - 1]];
      assert chain[k - 1] !in d;
    }
  }

  /** DELETION goes exactly to the old children that lose their position: an old child is
      doomed iff the element at its position is missing or of another kind. */
  lemma DoomedExactly(before: seq<Fiber>, wip: nat, elements: seq<Element>)
    requires WellLinked(before) && wip < |before|
    ensures var prior := OldChildren(before, wip);
      forall j :: 0 <= j < |prior| ==>
        (prior[j] in Doomed(before, wip, elements) <==> j >= |elements| || before[prior[j]].kind != Some(elements[j].kind))
    ensures forall x :: x in Doomed(before, wip, elements) ==> x in OldChildren(before, wip)
  {
    var chain := OldChildren(before, wip);
    DoomedUpToExactly(before, chain, elements, |chain|);
    assert chain[..|chain|] == chain;
  }

  /** Doomed fibers carry the DELETION tag; every other existing fiber keeps its tag. */
  lemma DoomedTagged(before: seq<Fiber>, wip: nat, elements: seq<Element>, i: nat)
    requires WellLinked(before) && wip < |before| && i < |before|
    ensures Reconciled(before, wip, elements)[i].effect ==
      if i in Doomed(before, wip, elements) then Deletion else before[i].effect
  {
    var chain := OldChildren(before, wip);
    assert Reconciled(before, wip, elements)[i] == OldFiberAt(before, wip, chain, elements, Steps(chain, elements), i);
  }

  /** No new fiber has a doomed fiber as its alternate: a doomed fiber is never linked into
      the new tree. */
  lemma DoomedNotReused(before: seq<Fiber>, wip: nat, elements: seq<Element>, i: nat)
    requires WellLinked(before) && wip < |before| && |before| <= i < |before| + |elements|
    ensures var f := Reconciled(before, wip, elements)[i];
      f.alternate.Some? ==> f.alternate.value !in Doomed(before, wip, elements)
  {
    var chain := OldChildren(before, wip);
    assert Reconciled(before, wip, elements)[i] == NewFiber(before, wip, chain, elements, i - |before|, |elements|);
    DoomedUpToExactly(before, chain, elements, |chain|);
  }

  /** In an arena where fibers `base` to `base + m - 1` are consecutive siblings, the last
      one without a sibling, the sibling chain from `base + j` is exactly those from there on. */
  lemma {:induction false} ConsecutiveChain(a: seq<Fiber>, base: nat, m: nat, j: nat)
    requires WellLinked(a) && j < m && base + m <= |a|
    requires forall i :: base <= i < base + m ==> a[i].sibling == (if i + 1 < base + m then Some(i + 1) else None)
    ensures SiblingChain(a, Some(base + j)) == seq(m - j, t => base + j + t)
    decreases m - j
  {
    var here := base + j;
    var rest := SiblingChain(a, a[here].sibling);
    assert SiblingChain(a, Some(here)) == [here] + rest;
    if j + 1 < m {
      ConsecutiveChain(a, base, m, j + 1);
      assert [here] + rest == seq(m - j, t => here + t);
    } else {
      assert [here] + rest == seq(m - j, t => here + t);
    }
  }

  /** The new fiber for element `j` has the next element's fiber as sibling, the last none. */
  lemma NewFiberSibling(before: seq<Fiber>, wip: nat, elements: seq<Element>, i: nat)
    requires WellLinked(before) && wip < |before| && |before| <= i < |before| + |elements|
    ensures Reconciled(before, wip, elements)[i].sibling ==
      if i + 1 < |before| + |elements| then Some(i + 1) else None
  {
    var chain := OldChildren(before, wip);
    assert Reconciled(before, wip, elements)[i] == NewFiber(before, wip, chain, elements, i - |before|, |elements|);
  }

  /** The wip fiber's new children, read along `child` and `sibling` links, are the new fibers
      in element order: the fiber for element 0 is the child and each next element's fiber
      is the previous one's sibling. */
  lemma NewChildrenInOrder(before: seq<Fiber>, wip: nat, elements: seq<Element>)
    requires WellLinked(before) && wip < |before| && before[wip].child.None?
    ensures WellLinked(Reconciled(before, wip, elements))
    ensures SiblingChain(Reconciled(before, wip, elements), Reconciled(before, wip, elements)[wip].child) ==
      seq(|elements|, j => |before| + j)
  {
    ReconcileKeepsLinks(before, wip, elements);
    var chain := OldChildren(before, wip);
    var after := Reconciled(before, wip, elements);
    assert after[wip] == OldFiberAt(before, wip, chain, elements, Steps(chain, elements), wip);
    if |elements| > 0 {
      forall i | |before| <= i < |before| + |elements|
        ensures after[i].sibling == if i + 1 < |before| + |elements| then Some(i + 1) else None
      {
        NewFiberSibling(before, wip, elements, i);
      }
      ConsecutiveChain(after, |before|, |elements|, 0);
    }
  }

  /*
   * The cursor of reconcileChildren as the code is written (main.js:340-397): the inner loop
   * advances `index` only when an old fiber is present, and the outer loop does nothing once
   * `index` has reached the element count. The old fiber is kept as a position in the chain
   * of old children.
   */
  datatype Cursor = Cursor(index: nat, oldPos: Option<nat>)

  /** The condition of the outer loop. */
  predicate Running(count: nat, c: Cursor) {
    c.index < count || c.oldPos.Some?
  }

  /** One pass of the innermost loop body, or of the outer body once the inner loop is skipped. */
  function CursorStepAsWritten(oldCount: nat, count: nat, c: Cursor): (r: Cursor)
    ensures c.oldPos.None? ==> r == c
    ensures c.index >= count ==> r == c
  {
    if c.index < count && c.oldPos.Some? then
      Cursor(c.index + 1, if c.oldPos.value + 1 < oldCount then Some(c.oldPos.value + 1) else None)
    else c
  }

  /** The cursor after at most `fuel` passes, stopping when the outer loop would exit. */
  function CursorRunAsWritten(oldCount: nat, count: nat, c: Cursor, fuel: nat): Cursor
    decreases fuel
  {
    if fuel == 0 || !Running(count, c) then c
    else CursorRunAsWritten(oldCount, count, CursorStepAsWritten(oldCount, count, c), fuel - 1)
  }

  /** The cursors the written loops can reach from the start. */
  predicate CursorReachable(oldCount: nat, count: nat, c: Cursor) {
    c.index <= Min(oldCount, count) && c.oldPos == if c.index < oldCount then Some(c.index) else None
  }

  /** As written, the loops never exit when the number of old children differs from the number
      of elements: the cursor stalls with no old fiber left, or with old fibers left after the
      last element. */
  lemma {:induction false} AsWrittenNeverExits(oldCount: nat, count: nat, c: Cursor, fuel: nat)
    requires oldCount != count && CursorReachable(oldCount, count, c)
    ensures Running(count, CursorRunAsWritten(oldCount, count, c, fuel))
    decreases fuel
  {
    if fuel > 0 {
      var next := CursorStepAsWritten(oldCount, count, c);
      assert CursorReachable(oldCount, count, next);
      AsWrittenNeverExits(oldCount, count, next, fuel - 1);
    }
  }

  /** The first render of any element: one element, no old children. As written the walk
      never ends. */
  lemma FirstRenderNeverEndsAsWritten(fuel: nat)
    ensures Running(1, CursorRunAsWritten(0, 1, Cursor(0, None), fuel))
  {
    AsWrittenNeverExits(0, 1, Cursor(0, None), fuel);
  }
}
