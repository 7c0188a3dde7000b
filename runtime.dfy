/**
 * The scheduler: the generation variables of the runtime and the operations that move them.
 * `render` and `setState` start a cycle rooted at a new fiber whose alternate is the committed
 * root; `workLoop` performs units of work until the deadline oracle says to yield, and commits
 * the work-in-progress generation once no unit of work is left.
 */
module Scheduler {
  import opened Wrappers
  import opened Elements
  import opened Sink
  import opened Fibers
  import opened Hooks
  import opened Reconciliation
  import opened Commit

  /** What a setState closure refers to: hook `index` of the fiber rendered when useState ran. */
  datatype HookToken = HookToken(fiber: nat, index: nat)

  /** The root fiber of a cycle: no kind and no parent, the container's node, no effect. */
  function RootFiber(dom: nat, props: Props, children: seq<Element>, alternate: Option<nat>): (f: Fiber)
    ensures f.parent.None? && f.dom == Some(dom) && f.alternate == alternate
    ensures f.child.None? && f.sibling.None? && f.hooks == []
  {
    Fiber(None, props, children, Some(dom), None, None, None, alternate, NoEffect, [])
  }

  predicate IsRoot(fibers: seq<Fiber>, r: nat) {
    r < |fibers| && fibers[r].parent.None?
  }

  /** The root fiber setState starts a cycle with: the node, props and children of the
      committed root `r`, with `r` as alternate. */
  function RestartFrom(fibers: seq<Fiber>, r: nat): (f: Fiber)
    requires WellLinked(fibers) && IsRoot(fibers, r)
    ensures f.dom == fibers[r].dom && f.props == fibers[r].props && f.children == fibers[r].children
    ensures f.alternate == Some(r) && f.parent.None? && f.child.None? && f.sibling.None?
  {
    assert LinkedAt(fibers, r);
    RootFiber(fibers[r].dom.value, fibers[r].props, fibers[r].children, Some(r))
  }

  /** The arena with fiber `f`'s hooks replaced. */
  function WithHooks(fibers: seq<Fiber>, f: nat, hooks: seq<Hook>): (r: seq<Fiber>)
    requires f < |fibers|
    ensures |r| == |fibers| && r[f].hooks == hooks
    ensures forall i :: 0 <= i < |fibers| && i != f ==> r[i] == fibers[i]
  {
    fibers[f := fibers[f].(hooks := hooks)]
  }

  /** Hooks take no part in the links: replacing them keeps the arena well linked. */
  lemma HooksKeepLinks(fibers: seq<Fiber>, f: nat, hooks: seq<Hook>, n: nat)
    requires WellLinked(fibers) && DomsIn(fibers, n) && f < |fibers|
    ensures WellLinked(WithHooks(fibers, f, hooks)) && DomsIn(WithHooks(fibers, f, hooks), n)
  {
    var r := WithHooks(fibers, f, hooks);
    forall i | 0 <= i < |r| ensures LinkedAt(r, i) {
      assert LinkedAt(fibers, i);
    }
  }

  /** Giving a fiber a node keeps the arena well linked. */
  lemma DomKeepsLinks(fibers: seq<Fiber>, f: nat, h: nat, n: nat)
    requires WellLinked(fibers) && DomsIn(fibers, n) && f < |fibers| && h < n
    ensures WellLinked(fibers[f := fibers[f].(dom := Some(h))])
    ensures DomsIn(fibers[f := fibers[f].(dom := Some(h))], n)
  {
    var r := fibers[f := fibers[f].(dom := Some(h))];
    forall i | 0 <= i < |r| ensures LinkedAt(r, i) {
      assert LinkedAt(fibers, i);
    }
  }

  /** Appending a root fiber whose alternate is an earlier fiber keeps the arena well linked. */
  lemma RootKeepsLinks(fibers: seq<Fiber>, root: Fiber, n: nat)
    requires WellLinked(fibers) && DomsIn(fibers, n)
    requires root.parent.None? && root.dom.Some? && root.dom.value < n && root.child.None? && root.sibling.None?
    requires root.effect == NoEffect && (root.alternate.Some? ==> root.alternate.value < |fibers|)
    ensures WellLinked(fibers + [root]) && DomsIn(fibers + [root], n)
  {
    var r := fibers + [root];
    forall i | 0 <= i < |r| ensures LinkedAt(r, i) {
      if i < |fibers| {
        assert LinkedAt(fibers, i);
      }
    }
  }

  /** Reconciliation keeps the queued deletions detachable. */
  lemma ReconcileKeepsDeletions(fibers: seq<Fiber>, deletions: seq<nat>, wip: nat, elements: seq<Element>)
    requires WellLinked(fibers) && wip < |fibers| && QueuedIn(fibers, deletions)
    ensures QueuedIn(Reconciled(fibers, wip, elements), deletions + Doomed(fibers, wip, elements))
  {
    var after := Reconciled(fibers, wip, elements);
    var queue := deletions + Doomed(fibers, wip, elements);
    ReconcileKeepsLinks(fibers, wip, elements);
    DoomedExactly(fibers, wip, elements);
    var prior := OldChildren(fibers, wip);
    forall k | 0 <= k < |queue| ensures queue[k] < |after| && after[queue[k]].parent.Some? {
      if k >= |deletions| {
        assert queue[k] in Doomed(fibers, wip, elements);
        assert queue[k] in prior;
      }
    }
  }

  /** The states of the first `k + 1` useState calls extend those of the first `k`. */
  lemma ResolvedPrefix(apply: (Action, Value) -> Value, prev: seq<Hook>, initials: seq<Value>, k: nat)
    requires k < |initials|
    ensures ResolvedStates(apply, prev, initials[..k + 1]) ==
      ResolvedStates(apply, prev, initials[..k]) + [ResolveState(apply, prev, k, initials[k])]
  {
    var a := ResolvedStates(apply, prev, initials[..k + 1]);
    var b := ResolvedStates(apply, prev, initials[..k]) + [ResolveState(apply, prev, k, initials[k])];
    forall t | 0 <= t < |a| ensures a[t] == b[t] {
      assert initials[..k + 1][t] == initials[t];
    }
  }

  lemma FreshHooksSnoc(states: seq<Value>, s: Value)
    ensures FreshHooks(states + [s]) == FreshHooks(states) + [Hook(s, [])]
  {
    var a := FreshHooks(states + [s]);
    var b := FreshHooks(states) + [Hook(s, [])];
    forall t | 0 <= t < |a| ensures a[t] == b[t] {
      if t < |states| {
        assert (states + [s])[t] == states[t];
      }
    }
  }

  /** Whether fiber `f` renders a component function. */
  predicate IsComponentFiber(fibers: seq<Fiber>, f: nat)
    requires f < |fibers|
  {
    fibers[f].kind.Some? && fibers[f].kind.value.Component?
  }

  /** The states the useState calls of component fiber `f` return during its render. */
  function RenderStates(program: Components, fibers: seq<Fiber>, f: nat): (r: seq<Value>)
    requires f < |fibers| && IsComponentFiber(fibers, f)
    ensures |r| == |program.initials(fibers[f].kind.value.id, fibers[f].props)|
  {
    ResolvedStates(program.apply, AltHooks(fibers, f), program.initials(fibers[f].kind.value.id, fibers[f].props))
  }

  /** The elements performUnitOfWork reconciles against fiber `f`: the single element a
      component returns, or the fiber's own children. */
  function ChildElements(program: Components, fibers: seq<Fiber>, f: nat): (r: seq<Element>)
    requires f < |fibers|
    ensures IsComponentFiber(fibers, f) ==> |r| == 1
  {
    if IsComponentFiber(fibers, f) then
      var id := fibers[f].kind.value.id;
      [program.body(id, fibers[f].props, fibers[f].children, RenderStates(program, fibers, f))]
    else fibers[f].children
  }

  /** The node createDom makes for a fiber of any other kind that has none yet. */
  function NewNodes(fibers: seq<Fiber>, f: nat): (r: seq<DomNode>)
    requires f < |fibers|
    ensures IsComponentFiber(fibers, f) || fibers[f].dom.Some? ==> r == []
    ensures !IsComponentFiber(fibers, f) && fibers[f].dom.None? ==> r == [DomNode(fibers[f].kind, fibers[f].props, {}, [])]
  {
    if !IsComponentFiber(fibers, f) && fibers[f].dom.None? then [DomNode(fibers[f].kind, fibers[f].props, {}, [])]
    else []
  }

  /** The arena once the fiber's own part of performUnitOfWork is done, before its children
      are reconciled: a component fiber holds one fresh hook per useState call; another
      fiber without a node holds the handle `n` of the node created for it. */
  function Prepared(program: Components, fibers: seq<Fiber>, n: nat, f: nat): (r: seq<Fiber>)
    requires WellLinked(fibers) && DomsIn(fibers, n) && f < |fibers|
    ensures WellLinked(r) && DomsIn(r, n + |NewNodes(fibers, f)|)
    ensures |r| == |fibers| && forall i :: 0 <= i < |fibers| && i != f ==> r[i] == fibers[i]
    ensures r[f].kind == fibers[f].kind && r[f].props == fibers[f].props && r[f].children == fibers[f].children
    ensures r[f].parent == fibers[f].parent && r[f].alternate == fibers[f].alternate && r[f].child == fibers[f].child
    ensures IsComponentFiber(fibers, f) ==>
      r[f] == fibers[f].(hooks := FreshHooks(RenderStates(program, fibers, f)))
    ensures !IsComponentFiber(fibers, f) && fibers[f].dom.None? ==> r[f] == fibers[f].(dom := Some(n))
    ensures !IsComponentFiber(fibers, f) && fibers[f].dom.Some? ==> r == fibers
  {
    if IsComponentFiber(fibers, f) then
      HooksKeepLinks(fibers, f, FreshHooks(RenderStates(program, fibers, f)), n);
      WithHooks(fibers, f, FreshHooks(RenderStates(program, fibers, f)))
    else if fibers[f].dom.None? then
      DomKeepsLinks(fibers, f, n, n + 1);
      fibers[f := fibers[f].(dom := Some(n))]
    else fibers
  }

  /**
   * The runtime invariant, for a store of `n` nodes: the arena is well linked and only holds
   * handles of existing nodes; the generation variables name fibers of the arena; a unit of work only
   * exists within a work-in-progress generation; the hook index counts the hooks of the
   * fiber being rendered.
   */
  predicate RuntimeInv(fibers: seq<Fiber>, n: nat, next: Option<nat>, wipRoot: Option<nat>, currentRoot: Option<nat>,
                       deletions: seq<nat>, wipFiber: Option<nat>, hookIndex: nat)
  {
    && WellLinked(fibers) && DomsIn(fibers, n)
    && (next.Some? ==> next.value < |fibers| && wipRoot.Some?)
    && (wipRoot.Some? ==> IsRoot(fibers, wipRoot.value))
    && (currentRoot.Some? ==> IsRoot(fibers, currentRoot.value))
    && QueuedIn(fibers, deletions)
    && (wipFiber.Some? ==> wipFiber.value < |fibers| && hookIndex == |fibers[wipFiber.value].hooks|)
  }

  /** Replacing a fiber's hooks keeps the invariant, given the matching hook index. */
  lemma InvWithHooks(fibers: seq<Fiber>, n: nat, next: Option<nat>, wipRoot: Option<nat>, currentRoot: Option<nat>,
                     deletions: seq<nat>, wipFiber: Option<nat>, hookIndex: nat,
                     f: nat, hooks: seq<Hook>, wipFiber': Option<nat>, hookIndex': nat)
    requires RuntimeInv(fibers, n, next, wipRoot, currentRoot, deletions, wipFiber, hookIndex) && f < |fibers|
    requires wipFiber'.Some? ==> wipFiber'.value < |fibers| && hookIndex' == |WithHooks(fibers, f, hooks)[wipFiber'.value].hooks|
    ensures RuntimeInv(WithHooks(fibers, f, hooks), n, next, wipRoot, currentRoot, deletions, wipFiber', hookIndex')
  {
    HooksKeepLinks(fibers, f, hooks, n);
  }

  /** The work of a fiber before reconciliation keeps the invariant over the grown store. */
  lemma InvPrepared(program: Components, fibers: seq<Fiber>, n: nat, next: Option<nat>, wipRoot: Option<nat>,
                    currentRoot: Option<nat>, deletions: seq<nat>, wipFiber: Option<nat>, hookIndex: nat, f: nat)
    requires RuntimeInv(fibers, n, next, wipRoot, currentRoot, deletions, wipFiber, hookIndex) && f < |fibers|
    requires IsComponentFiber(fibers, f) ==> wipFiber == Some(f) && hookIndex == |program.initials(fibers[f].kind.value.id, fibers[f].props)|
    ensures RuntimeInv(Prepared(program, fibers, n, f), n + |NewNodes(fibers, f)|, next, wipRoot, currentRoot, deletions, wipFiber, hookIndex)
  {
    var r := Prepared(program, fibers, n, f);
    if wipFiber.Some? && wipFiber.value != f {
      assert r[wipFiber.value] == fibers[wipFiber.value];
    }
  }

  /** Reconciliation keeps the invariant, with the doomed old fibers queued. */
  lemma InvReconciled(fibers: seq<Fiber>, n: nat, next: Option<nat>, wipRoot: Option<nat>, currentRoot: Option<nat>,
                      deletions: seq<nat>, wipFiber: Option<nat>, hookIndex: nat, wip: nat, elements: seq<Element>)
    requires RuntimeInv(fibers, n, next, wipRoot, currentRoot, deletions, wipFiber, hookIndex) && wip < |fibers|
    ensures RuntimeInv(Reconciled(fibers, wip, elements), n, next, wipRoot, currentRoot,
                       deletions + Doomed(fibers, wip, elements), wipFiber, hookIndex)
  {
    ReconcileKeepsLinks(fibers, wip, elements);
    ReconcileKeepsDoms(fibers, wip, elements, n);
    ReconcileKeepsDeletions(fibers, deletions, wip, elements);
    var after := Reconciled(fibers, wip, elements);
    assert OnlyTagsAndChild(fibers, after);
    if wipRoot.Some? {
      assert after[wipRoot.value].parent == fibers[wipRoot.value].parent;
    }
    if currentRoot.Some? {
      assert after[currentRoot.value].parent == fibers[currentRoot.value].parent;
    }
    if wipFiber.Some? {
      assert after[wipFiber.value].hooks == fibers[wipFiber.value].hooks;
    }
  }

  /** A fiber that reconciled at least one element is followed in the walk by the new fiber
      for its first element. */
  lemma WorkDescendsFirst(before: seq<Fiber>, wip: nat, elements: seq<Element>)
    requires WellLinked(before) && wip < |before|
    ensures WellLinked(Reconciled(before, wip, elements))
    ensures |elements| > 0 ==> NextFiber(Reconciled(before, wip, elements), wip) == Some(|before|)
  {
    ReconcileKeepsLinks(before, wip, elements);
    if |elements| > 0 {
      var chain := OldChildren(before, wip);
      assert Reconciled(before, wip, elements)[wip] == OldFiberAt(before, wip, chain, elements, Steps(chain, elements), wip);
    }
  }

  /** Replacing a fiber's hooks twice is replacing them once. */
  lemma WithHooksTwice(fibers: seq<Fiber>, f: nat, first: seq<Hook>, second: seq<Hook>)
    requires f < |fibers|
    ensures WithHooks(WithHooks(fibers, f, first), f, second) == WithHooks(fibers, f, second)
  {
  }

  /** A fiber's alternate comes before it, so replacing its own hooks leaves the alternate's. */
  lemma AltHooksKept(fibers: seq<Fiber>, f: nat, hooks: seq<Hook>)
    requires WellLinked(fibers) && f < |fibers|
    ensures AltHooks(WithHooks(fibers, f, hooks), f) == AltHooks(fibers, f)
  {
    assert LinkedAt(fibers, f);
  }

  /** The node store after commitRoot: the intended deletion pass over the queued fibers,
      then the work-in-progress tree committed from the first child of `root`. */
  function CommitGeneration(fibers: seq<Fiber>, nodes: seq<DomNode>, deletions: seq<nat>, root: nat): (r: seq<DomNode>)
    requires WellLinked(fibers) && DomsIn(fibers, |nodes|) && QueuedIn(fibers, deletions) && root < |fibers|
    ensures |r| == |nodes| && forall h :: 0 <= h < |r| ==> r[h].kind == nodes[h].kind
  {
    assert LinkedAt(fibers, root);
    CommitTree(fibers, CommitDeletions(fibers, nodes, deletions), fibers[root].child)
  }

  /** A generation with nothing to delete whose fibers after the root are all quiet (no
      placement, no deletion, no changed property) leaves the node store as it is. */
  lemma QuietGenerationCommitsNothing(fibers: seq<Fiber>, nodes: seq<DomNode>, root: nat)
    requires WellLinked(fibers) && DomsIn(fibers, |nodes|) && root < |fibers|
    requires forall i :: root < i < |fibers| ==> Quiet(fibers, i)
    ensures CommitGeneration(fibers, nodes, [], root) == nodes
  {
    assert LinkedAt(fibers, root);
    QuietCommitChangesNothing(fibers, nodes, fibers[root].child);
  }

  /** The part of the runtime state a unit of work reads and changes. */
  datatype Work = Work(fibers: seq<Fiber>, nodes: seq<DomNode>, deletions: seq<nat>,
                       wipFiber: Option<nat>, hookIndex: nat, next: Option<nat>)

  predicate WorkIn(w: Work) {
    WellLinked(w.fibers) && DomsIn(w.fibers, |w.nodes|) && (w.next.Some? ==> w.next.value < |w.fibers|)
  }

  /** One unit of work on the next fiber (performUnitOfWork): the fiber is prepared (hooks
      for a component, a node for a host fiber without one), its child elements are
      reconciled, and the next unit is chosen in child, sibling, uncle order. */
  function Unit(program: Components, w: Work): (r: Work)
    requires WorkIn(w) && w.next.Some?
    ensures WorkIn(r)
    ensures w.nodes <= r.nodes && w.deletions <= r.deletions && |w.fibers| <= |r.fibers|
    ensures |ChildElements(program, w.fibers, w.next.value)| > 0 ==> r.next == Some(|w.fibers|)
  {
    var f := w.next.value;
    var prepared := Prepared(program, w.fibers, |w.nodes|, f);
    var elements := ChildElements(program, w.fibers, f);
    var fibers := Reconciled(prepared, f, elements);
    ReconcileKeepsLinks(prepared, f, elements);
    ReconcileKeepsDoms(prepared, f, elements, |w.nodes| + |NewNodes(w.fibers, f)|);
    WorkDescendsFirst(prepared, f, elements);
    var component := IsComponentFiber(w.fibers, f);
    Work(fibers, w.nodes + NewNodes(w.fibers, f), w.deletions + Doomed(prepared, f, elements),
         if component then Some(f) else w.wipFiber,
         if component then |RenderStates(program, w.fibers, f)| else w.hookIndex,
         NextFiber(fibers, f))
  }

  /** Up to `k` successive units of work, stopping early when no unit is left. */
  function Units(program: Components, w: Work, k: nat): (r: Work)
    requires WorkIn(w)
    ensures WorkIn(r)
    ensures w.nodes <= r.nodes && w.deletions <= r.deletions && |w.fibers| <= |r.fibers|
    ensures w.next.None? ==> r == w
    decreases k
  {
    if k == 0 then w
    else
      var p := Units(program, w, k - 1);
      if p.next.None? then p else Unit(program, p)
  }

  /** A trace of work states, each one the unit of work performed on the one before. */
  predicate Run(program: Components, trace: seq<Work>) {
    forall i :: 0 <= i < |trace| - 1 ==>
      WorkIn(trace[i]) && trace[i].next.Some? && trace[i + 1] == Unit(program, trace[i])
  }

  /** A trace ending where a unit of work begins, extended by that unit. */
  lemma RunAppend(program: Components, trace: seq<Work>, a: Work, b: Work)
    requires Run(program, trace) && |trace| > 0 && trace[|trace| - 1] == a && Run(program, [a, b])
    ensures Run(program, trace + [b])
  {
    var t := trace + [b];
    forall i | 0 <= i < |t| - 1
      ensures WorkIn(t[i]) && t[i].next.Some? && t[i + 1] == Unit(program, t[i])
    {
      if i < |trace| - 1 {
        assert t[i] == trace[i] && t[i + 1] == trace[i + 1];
      } else {
        assert t[i] == [a, b][0] && t[i + 1] == [a, b][1];
      }
    }
  }

  /** A state whose parts are those performUnitOfWork leaves is the unit of work after `w`. */
  lemma UnitPerformed(program: Components, w: Work, r: Work)
    requires WorkIn(w) && w.next.Some?
    requires var f := w.next.value;
      var prepared := Prepared(program, w.fibers, |w.nodes|, f);
      var elements := ChildElements(program, w.fibers, f);
      && r.nodes == w.nodes + NewNodes(w.fibers, f)
      && r.fibers == Reconciled(prepared, f, elements)
      && r.deletions == w.deletions + Doomed(prepared, f, elements)
      && WellLinked(r.fibers) && r.next == NextFiber(r.fibers, f)
      && if IsComponentFiber(w.fibers, f) then r.wipFiber == Some(f) && r.hookIndex == |RenderStates(program, w.fibers, f)|
         else r.wipFiber == w.wipFiber && r.hookIndex == w.hookIndex
    ensures Run(program, [w, r])
  {
    assert r == Unit(program, w);
    assert [w, r][0] == w && [w, r][1] == r;
  }

  /** A trace of `k` units of work from `w` ends where `k` successive units from `w` end. */
  lemma {:induction false} RunIsUnits(program: Components, trace: seq<Work>)
    requires |trace| > 0 && WorkIn(trace[0]) && Run(program, trace)
    ensures trace[|trace| - 1] == Units(program, trace[0], |trace| - 1)
    decreases |trace|
  {
    if |trace| > 1 {
      var prefix := trace[..|trace| - 1];
      assert Run(program, prefix) by {
        forall i | 0 <= i < |prefix| - 1
          ensures WorkIn(prefix[i]) && prefix[i].next.Some? && prefix[i + 1] == Unit(program, prefix[i])
        {
          assert prefix[i] == trace[i] && prefix[i + 1] == trace[i + 1];
        }
      }
      RunIsUnits(program, prefix);
      assert trace[|trace| - 2] == prefix[|prefix| - 1];
    }
  }

  /** The i-th answer of the deadline oracle: no time left once the answers run out. */
  function TimeLeft(timeRemaining: seq<int>, i: nat): int {
    if i < |timeRemaining| then timeRemaining[i] else 0
  }

  /** The deadline left time after each of the first `n` units. */
  predicate InTime(timeRemaining: seq<int>, n: nat) {
    forall j :: 0 <= j < n ==> TimeLeft(timeRemaining, j) >= 1
  }

  /** The deadline had passed when the `n`-th unit finished. */
  predicate Yielded(timeRemaining: seq<int>, n: nat) {
    n > 0 && TimeLeft(timeRemaining, n - 1) < 1
  }

  /** A unit performed without the deadline passing extends the units done in time. */
  lemma InTimeExtends(timeRemaining: seq<int>, n: nat)
    requires n > 0 ==> InTime(timeRemaining, n - 1) && TimeLeft(timeRemaining, n - 1) >= 1
    ensures InTime(timeRemaining, n)
  {
  }

  /**
   * The runtime: the arena of fibers of every generation, the document, and the generation
   * variables (`nextUnitOfWork`, `wipRoot`, `currentRoot`, `deletions`, `wipFiber`,
   * `hookIndex`). `program` holds the component functions.
   */
  class Runtime {
    const program: Components
    const doc: Document
    var fibers: seq<Fiber>
    var nextUnitOfWork: Option<nat>
    var wipRoot: Option<nat>
    var currentRoot: Option<nat>
    var deletions: seq<nat>
    var wipFiber: Option<nat>
    var hookIndex: nat

    ghost predicate Valid()
      reads this, doc
    {
      RuntimeInv(fibers, |doc.nodes|, nextUnitOfWork, wipRoot, currentRoot, deletions, wipFiber, hookIndex)
    }

    /** The module state before anything is rendered. */
    constructor (program: Components, doc: Document)
      ensures this.program == program && this.doc == doc
      ensures fibers == [] && nextUnitOfWork.None? && wipRoot.None? && currentRoot.None?
      ensures deletions == [] && wipFiber.None? && hookIndex == 0
      ensures Valid()
    {
      this.program := program;
      this.doc := doc;
      fibers := [];
      nextUnitOfWork := None;
      wipRoot := None;
      currentRoot := None;
      deletions := [];
      wipFiber := None;
      hookIndex := 0;
    }

    /** The cycle start shared by render and setState: a new root fiber on the given node,
        props and children, whose alternate is the committed root; an empty deletion queue;
        the root as the next unit of work. */
    method StartCycle(dom: nat, props: Props, children: seq<Element>)
      requires Valid() && dom < |doc.nodes|
      modifies this
      ensures fibers == old(fibers) + [RootFiber(dom, props, children, old(currentRoot))]
      ensures wipRoot == Some(|old(fibers)|) && nextUnitOfWork == wipRoot && deletions == []
      ensures currentRoot == old(currentRoot) && wipFiber == old(wipFiber) && hookIndex == old(hookIndex)
      ensures Valid()
    {
      RootKeepsLinks(fibers, RootFiber(dom, props, children, currentRoot), |doc.nodes|);
      var root := |fibers|;
      fibers := fibers + [RootFiber(dom, props, children, currentRoot)];
      wipRoot := Some(root);
      deletions := [];
      nextUnitOfWork := wipRoot;
    }

    /** render: starts a cycle rooted at the container node with the element as only child. */
    method Render(element: Element, container: nat)
      requires Valid() && container < |doc.nodes|
      modifies this
      ensures fibers == old(fibers) + [RootFiber(container, map[], [element], old(currentRoot))]
      ensures wipRoot == Some(|old(fibers)|) && nextUnitOfWork == wipRoot && deletions == []
      ensures currentRoot == old(currentRoot) && wipFiber == old(wipFiber) && hookIndex == old(hookIndex)
      ensures Valid()
    {
      StartCycle(container, map[], [element]);
    }

    /** setState(action) of the hook named by `t`: the action is queued on that hook; then a
        cycle starts from the committed root's node, props and children. Without a committed
        root only the queueing happens and `started` is false (the source fails there). */
    method SetState(t: HookToken, action: Action) returns (started: bool)
      requires Valid() && t.fiber < |fibers| && t.index < |fibers[t.fiber].hooks|
      modifies this
      ensures started == old(currentRoot).Some?
      ensures var queued := WithHooks(old(fibers), t.fiber, Enqueued(old(fibers)[t.fiber].hooks, t.index, action));
        if started then
          && fibers == queued + [RestartFrom(old(fibers), old(currentRoot).value)]
          && wipRoot == Some(|old(fibers)|) && nextUnitOfWork == wipRoot && deletions == []
        else
          fibers == queued && wipRoot == old(wipRoot) && nextUnitOfWork == old(nextUnitOfWork) && deletions == old(deletions)
      ensures currentRoot == old(currentRoot) && wipFiber == old(wipFiber) && hookIndex == old(hookIndex)
      ensures Valid()
    {
      var hooks := fibers[t.fiber].hooks;
      InvWithHooks(fibers, |doc.nodes|, nextUnitOfWork, wipRoot, currentRoot, deletions, wipFiber, hookIndex,
                   t.fiber, Enqueued(hooks, t.index, action), wipFiber, hookIndex);
      fibers := WithHooks(fibers, t.fiber, Enqueued(hooks, t.index, action));
      if currentRoot.None? {
        return false;
      }
      var cr := fibers[currentRoot.value];
      assert LinkedAt(fibers, currentRoot.value);
      StartCycle(cr.dom.value, cr.props, cr.children);
      return true;
    }

    /** useState(initial) during the render of `wipFiber`: the state is the alternate's hook at
        the same position with its queued actions applied, or `initial` when there is none; a
        new hook holding that state and an empty queue is appended; the hook index advances. */
    method UseState(initial: Value) returns (state: Value, token: HookToken)
      requires Valid() && wipFiber.Some?
      modifies this
      ensures var w := old(wipFiber).value;
        && state == ResolveState(program.apply, AltHooks(old(fibers), w), old(hookIndex), initial)
        && token == HookToken(w, old(hookIndex))
        && fibers == WithHooks(old(fibers), w, old(fibers)[w].hooks + [Hook(state, [])])
      ensures hookIndex == old(hookIndex) + 1 && wipFiber == old(wipFiber)
      ensures nextUnitOfWork == old(nextUnitOfWork) && wipRoot == old(wipRoot)
      ensures currentRoot == old(currentRoot) && deletions == old(deletions)
      ensures Valid()
    {
      var w := wipFiber.value;
      var prev := AltHooks(fibers, w);
      if hookIndex < |prev| {
        state := ApplyQueue(program.apply, prev[hookIndex].state, prev[hookIndex].queue);
      } else {
        state := initial;
      }
      var hooks := fibers[w].hooks + [Hook(state, [])];
      InvWithHooks(fibers, |doc.nodes|, nextUnitOfWork, wipRoot, currentRoot, deletions, wipFiber, hookIndex,
                   w, hooks, wipFiber, hookIndex + 1);
      fibers := WithHooks(fibers, w, hooks);
      token := HookToken(w, hookIndex);
      hookIndex := hookIndex + 1;
    }

    /** The component body's useState calls, in order, with the given initial values: the
        states returned are those resolved against the alternate's hooks, and the fiber ends
        up with one fresh hook per call. */
    method CallUseStates(initials: seq<Value>) returns (states: seq<Value>)
      requires Valid() && wipFiber.Some? && fibers[wipFiber.value].hooks == [] && hookIndex == 0
      modifies this
      ensures var w := old(wipFiber).value;
        && states == ResolvedStates(program.apply, AltHooks(old(fibers), w), initials)
        && fibers == WithHooks(old(fibers), w, FreshHooks(states))
      ensures wipFiber == old(wipFiber) && hookIndex == |initials|
      ensures nextUnitOfWork == old(nextUnitOfWork) && wipRoot == old(wipRoot)
      ensures currentRoot == old(currentRoot) && deletions == old(deletions)
      ensures Valid()
    {
      ghost var start := fibers;
      var f := wipFiber.value;
      states := [];
      var k := 0;
      assert WithHooks(start, f, FreshHooks(states)) == start;
      while k < |initials|
        invariant k <= |initials| && wipFiber == Some(f) && hookIndex == k
        invariant states == ResolvedStates(program.apply, AltHooks(start, f), initials[..k])
        invariant fibers == WithHooks(start, f, FreshHooks(states))
        invariant nextUnitOfWork == old(nextUnitOfWork) && wipRoot == old(wipRoot)
        invariant currentRoot == old(currentRoot) && deletions == old(deletions)
        invariant Valid()
      {
        AltHooksKept(start, f, FreshHooks(states));
        var s, _ := UseState(initials[k]);
        WithHooksTwice(start, f, FreshHooks(states), FreshHooks(states) + [Hook(s, [])]);
        FreshHooksSnoc(states, s);
        ResolvedPrefix(program.apply, AltHooks(start, f), initials, k);
        states := states + [s];
        k := k + 1;
      }
      assert initials[..k] == initials;
    }

    /** updateFunctionnalComponent: the fiber becomes `wipFiber` with no hooks and a zero hook
        index; the component body runs, making its useState calls in order; the single element
        it returns is reconciled against the fiber. */
    method UpdateFunctionComponent(f: nat)
      requires Valid() && f < |fibers| && IsComponentFiber(fibers, f)
      modifies this
      ensures var prepared := Prepared(program, old(fibers), |doc.nodes|, f);
        && fibers == Reconciled(prepared, f, ChildElements(program, old(fibers), f))
        && deletions == old(deletions) + Doomed(prepared, f, ChildElements(program, old(fibers), f))
      ensures wipFiber == Some(f) && hookIndex == |RenderStates(program, old(fibers), f)|
      ensures nextUnitOfWork == old(nextUnitOfWork) && wipRoot == old(wipRoot) && currentRoot == old(currentRoot)
      ensures Valid()
    {
      ghost var start := fibers;
      var id := fibers[f].kind.value.id;
      var props := fibers[f].props;
      var children := fibers[f].children;
      InvWithHooks(fibers, |doc.nodes|, nextUnitOfWork, wipRoot, currentRoot, deletions, wipFiber, hookIndex,
                   f, [], Some(f), 0);
      wipFiber := Some(f);
      hookIndex := 0;
      fibers := WithHooks(fibers, f, []);
      AltHooksKept(start, f, []);
      var states := CallUseStates(program.initials(id, props));
      WithHooksTwice(start, f, [], FreshHooks(states));
      var child := program.body(id, props, children, states);
      InvReconciled(fibers, |doc.nodes|, nextUnitOfWork, wipRoot, currentRoot, deletions, wipFiber, hookIndex, f, [child]);
      fibers, deletions := ReconcileChildren(fibers, deletions, f, [child]);
    }

    /** updateHostComponent: a fiber without a node gets a new one made from its kind and
        props; its children are reconciled against it. */
    method UpdateHostComponent(f: nat)
      requires Valid() && f < |fibers| && !IsComponentFiber(fibers, f)
      modifies this, doc
      ensures doc.nodes == old(doc.nodes) + NewNodes(old(fibers), f)
      ensures var prepared := Prepared(program, old(fibers), |old(doc.nodes)|, f);
        && fibers == Reconciled(prepared, f, ChildElements(program, old(fibers), f))
        && deletions == old(deletions) + Doomed(prepared, f, ChildElements(program, old(fibers), f))
      ensures wipFiber == old(wipFiber) && hookIndex == old(hookIndex)
      ensures nextUnitOfWork == old(nextUnitOfWork) && wipRoot == old(wipRoot) && currentRoot == old(currentRoot)
      ensures Valid()
    {
      InvPrepared(program, fibers, |doc.nodes|, nextUnitOfWork, wipRoot, currentRoot, deletions, wipFiber, hookIndex, f);
      if fibers[f].dom.None? {
        var h := doc.CreateNode(fibers[f].kind, fibers[f].props);
        fibers := fibers[f := fibers[f].(dom := Some(h))];
      }
      assert fibers == Prepared(program, old(fibers), |old(doc.nodes)|, f);
      InvReconciled(fibers, |doc.nodes|, nextUnitOfWork, wipRoot, currentRoot, deletions, wipFiber, hookIndex,
                    f, fibers[f].children);
      fibers, deletions := ReconcileChildren(fibers, deletions, f, fibers[f].children);
    }

    /** performUnitOfWork: the fiber's own work, by kind, then the next unit in depth-first
        order; a fiber that reconciled any element is followed by the fiber for the first. */
    method PerformUnitOfWork(f: nat) returns (next: Option<nat>)
      requires Valid() && f < |fibers|
      modifies this, doc
      ensures Valid()
      ensures doc.nodes == old(doc.nodes) + NewNodes(old(fibers), f)
      ensures var prepared := Prepared(program, old(fibers), |old(doc.nodes)|, f);
        && fibers == Reconciled(prepared, f, ChildElements(program, old(fibers), f))
        && deletions == old(deletions) + Doomed(prepared, f, ChildElements(program, old(fibers), f))
      ensures next == NextFiber(fibers, f)
      ensures |ChildElements(program, old(fibers), f)| > 0 ==> next == Some(|old(fibers)|)
      ensures if IsComponentFiber(old(fibers), f) then wipFiber == Some(f) && hookIndex == |RenderStates(program, old(fibers), f)|
              else wipFiber == old(wipFiber) && hookIndex == old(hookIndex)
      ensures nextUnitOfWork == old(nextUnitOfWork) && wipRoot == old(wipRoot) && currentRoot == old(currentRoot)
    {
      if fibers[f].kind.Some? && fibers[f].kind.value.Component? {
        UpdateFunctionComponent(f);
      } else {
        UpdateHostComponent(f);
      }
      if |ChildElements(program, old(fibers), f)| > 0 {
        WorkDescendsFirst(Prepared(program, old(fibers), |old(doc.nodes)|, f), f, ChildElements(program, old(fibers), f));
      }
      next := NextUnitOfWork(fibers, f);
    }

    /** commitRoot: commits every queued deletion in queue order, then the work-in-progress
        tree from the root's first child; the work-in-progress root becomes the committed one. */
    method CommitRoot()
      requires Valid() && wipRoot.Some? && nextUnitOfWork.None?
      modifies this, doc
      ensures Valid() && fibers == old(fibers) && deletions == old(deletions)
      ensures doc.nodes == CommitGeneration(fibers, old(doc.nodes), deletions, old(wipRoot).value)
      ensures currentRoot == old(wipRoot) && wipRoot.None? && nextUnitOfWork.None?
      ensures wipFiber == old(wipFiber) && hookIndex == old(hookIndex)
    {
      CommitDeletionQueue(doc, fibers, deletions);
      var root := wipRoot.value;
      assert LinkedAt(fibers, root);
      CommitWork(doc, fibers, fibers[root].child);
      currentRoot := wipRoot;
      wipRoot := None;
    }

    /** The part of the state a unit of work changes. */
    ghost function Snapshot(): Work
      reads this, doc
    {
      Work(fibers, doc.nodes, deletions, wipFiber, hookIndex, nextUnitOfWork)
    }

    /**
     * One turn of workLoop's loop: the unit of work at `nextUnitOfWork` is performed and what
     * performUnitOfWork returns becomes the next unit of work. The new state is `Unit` of the
     * old one, stated as a two-state trace.
     */
    method Advance()
      requires Valid() && nextUnitOfWork.Some?
      modifies this, doc
      ensures Valid() && Run(program, [old(Snapshot()), Snapshot()])
      ensures currentRoot == old(currentRoot) && wipRoot == old(wipRoot)
    {
      ghost var before := Snapshot();
      nextUnitOfWork := PerformUnitOfWork(nextUnitOfWork.value);
      UnitPerformed(program, before, Snapshot());
    }

    /**
     * The loop of workLoop: performs units of work while one is left and the deadline has
     * not passed, reading the deadline after each unit. `trace` holds the state before the
     * loop and after each of the `units` units; nothing is committed.
     */
    method PerformUntilYield(timeRemaining: seq<int>) returns (units: nat, ghost trace: seq<Work>)
      requires Valid()
      modifies this, doc
      ensures Valid() && Run(program, trace) && |trace| == units + 1
      ensures trace[0] == old(Snapshot()) && trace[units] == Snapshot()
      ensures currentRoot == old(currentRoot) && wipRoot == old(wipRoot)
      ensures old(nextUnitOfWork).Some? <==> units > 0
      ensures units > 0 ==> InTime(timeRemaining, units - 1)
      ensures nextUnitOfWork.Some? ==> Yielded(timeRemaining, units)
    {
      trace := [Snapshot()];
      units := 0;
      var shouldYield := false;
      while nextUnitOfWork.Some? && !shouldYield
        invariant Valid() && units <= |timeRemaining| + 1 && (!shouldYield ==> units <= |timeRemaining|)
        invariant Run(program, trace) && |trace| == units + 1
        invariant trace[0] == old(Snapshot()) && trace[units] == Snapshot()
        invariant currentRoot == old(currentRoot) && wipRoot == old(wipRoot)
        invariant trace[0].next.None? ==> units == 0
        invariant shouldYield == Yielded(timeRemaining, units)
        invariant units > 0 ==> InTime(timeRemaining, units - 1)
        decreases |timeRemaining| + 1 - units
      {
        InTimeExtends(timeRemaining, units);
        Advance();
        RunAppend(program, trace, trace[units], Snapshot());
        trace := trace + [Snapshot()];
        shouldYield := TimeLeft(timeRemaining, units) < 1;
        units := units + 1;
      }
    }

    /**
     * workLoop(deadline): performs units of work while there is one and the deadline has
     * not passed; `timeRemaining[i]` is what the deadline reports after the `i`-th unit, and
     * it reports no time left once the sequence is exhausted. `units` is the number of units
     * performed and `built` the document before the commit. The generation is committed only
     * when no unit of work is left; while one is left, nothing is committed.
     */
    method WorkLoop(timeRemaining: seq<int>) returns (units: nat, ghost built: seq<DomNode>)
      requires Valid()
      modifies this, doc
      ensures Valid()
      ensures var w := Units(program, old(Snapshot()), units);
        && fibers == w.fibers && built == w.nodes && deletions == w.deletions
        && wipFiber == w.wipFiber && hookIndex == w.hookIndex && nextUnitOfWork == w.next
      ensures old(doc.nodes) <= built
      ensures old(nextUnitOfWork).Some? <==> units > 0
      ensures units > 0 ==> InTime(timeRemaining, units - 1)
      ensures nextUnitOfWork.Some? ==> Yielded(timeRemaining, units)
      ensures nextUnitOfWork.Some? ==> doc.nodes == built && currentRoot == old(currentRoot) && wipRoot == old(wipRoot)
      ensures nextUnitOfWork.None? ==> wipRoot.None?
      ensures old(wipRoot).Some? && nextUnitOfWork.None? ==>
        currentRoot == old(wipRoot) && doc.nodes == CommitGeneration(fibers, built, deletions, currentRoot.value)
      ensures old(wipRoot).None? ==> units == 0 && doc.nodes == old(doc.nodes) && currentRoot == old(currentRoot)
    {
      ghost var trace;
      units, trace := PerformUntilYield(timeRemaining);
      RunIsUnits(program, trace);
      built := doc.nodes;
      if nextUnitOfWork.None? && wipRoot.Some? {
        CommitRoot();
      }
    }
  }
}
