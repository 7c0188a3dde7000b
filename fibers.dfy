/**
 * Fibers: the work units of a render, kept in an arena and linked by index. The links of a
 * well-formed arena are ordered (a parent or an alternate comes before, a child or a sibling
 * comes after), which is what makes every walk over them terminate.
 */
module Fibers {
  import opened Wrappers
  import opened Elements

  /** The effect tag: what the commit must do with the fiber's realized node. */
  datatype Effect = NoEffect | Placement | Update | Deletion

  /** A queued state update, interpreted by the component program's `apply`. */
  datatype Action = Action(id: nat)

  /** A state cell of a component fiber: the folded state and the updates queued since. */
  datatype Hook = Hook(state: Value, queue: seq<Action>)

  /**
   * A fiber. `kind` is None for the synthetic root, which has no `type` in the source.
   * `dom` is the handle of its realized node; `alternate` is the fiber at the same position
   * in the previously committed generation.
   */
  datatype Fiber = Fiber(
    kind: Option<Kind>,
    props: Props,
    children: seq<Element>,
    dom: Option<nat>,
    parent: Option<nat>,
    child: Option<nat>,
    sibling: Option<nat>,
    alternate: Option<nat>,
    effect: Effect,
    hooks: seq<Hook>)

  /** The links of fiber `i` respect the arena order, a root owns a realized node, a linked
      child or sibling is never a root, and an UPDATE fiber has a fiber to update from. */
  predicate LinkedAt(fibers: seq<Fiber>, i: nat)
    requires i < |fibers|
  {
    var f := fibers[i];
    && (f.parent.Some? ==> f.parent.value < i)
    && (f.alternate.Some? ==> f.alternate.value < i)
    && (f.child.Some? ==> i < f.child.value < |fibers| && fibers[f.child.value].parent.Some?)
    && (f.sibling.Some? ==> i < f.sibling.value < |fibers| && fibers[f.sibling.value].parent.Some?)
    && (f.parent.None? ==> f.dom.Some?)
    && (f.effect == Update ==> f.alternate.Some?)
  }

  predicate WellLinked(fibers: seq<Fiber>) {
    forall i :: 0 <= i < |fibers| ==> LinkedAt(fibers, i)
  }

  /** Every realized-node handle held by a fiber exists in a store of `n` nodes. */
  predicate DomsIn(fibers: seq<Fiber>, n: nat) {
    forall i :: 0 <= i < |fibers| && fibers[i].dom.Some? ==> fibers[i].dom.value < n
  }

  /** The path from `f` up through its ancestors to a root. */
  function Ancestors(fibers: seq<Fiber>, f: nat): (r: seq<nat>)
    requires WellLinked(fibers) && f < |fibers|
    ensures |r| > 0 && r[0] == f
    ensures forall k :: 0 <= k < |r| ==> r[k] < |fibers|
    ensures forall a, b :: 0 <= a && b == a + 1 && b < |r| ==> fibers[r[a]].parent == Some(r[b])
    ensures fibers[r[|r| - 1]].parent.None?
    decreases f
  {
    assert LinkedAt(fibers, f);
    match fibers[f].parent
    case None => [f]
    case Some(p) => [f] + Ancestors(fibers, p)
  }

  /** The sibling of the nearest fiber on the path from `f` up to the root. */
  function Uncle(fibers: seq<Fiber>, f: nat): (r: Option<nat>)
    requires WellLinked(fibers) && f < |fibers|
    ensures r.Some? ==> r.value < |fibers|
    decreases f
  {
    assert LinkedAt(fibers, f);
    if fibers[f].sibling.Some? then fibers[f].sibling
    else match fibers[f].parent
      case None => None
      case Some(p) => Uncle(fibers, p)
  }

  /** The next unit of work after `f` in depth-first order: its child, else the sibling of the
      nearest fiber on its ancestor path, else nothing (the generation is complete). */
  function NextFiber(fibers: seq<Fiber>, f: nat): (r: Option<nat>)
    requires WellLinked(fibers) && f < |fibers|
    ensures fibers[f].child.Some? ==> r == fibers[f].child
    ensures r.Some? ==> r.value < |fibers|
  {
    assert LinkedAt(fibers, f);
    if fibers[f].child.Some? then fibers[f].child else Uncle(fibers, f)
  }

  predicate NoSiblingOn(fibers: seq<Fiber>, path: seq<nat>) {
    forall k :: 0 <= k < |path| && path[k] < |fibers| ==> fibers[path[k]].sibling.None?
  }

  predicate NoDomOn(fibers: seq<Fiber>, path: seq<nat>) {
    forall k :: 0 <= k < |path| && path[k] < |fibers| ==> fibers[path[k]].dom.None?
  }

  /** Putting `x` in front of a sequence shifts its prefixes and positions by one. */
  lemma ConsShift(x: nat, s: seq<nat>, k: nat)
    requires k < |s|
    ensures ([x] + s)[..k + 1] == [x] + s[..k] && ([x] + s)[k + 1] == s[k]
  {
  }

  lemma NoSiblingCons(fibers: seq<Fiber>, x: nat, s: seq<nat>)
    requires x < |fibers| && fibers[x].sibling.None? && NoSiblingOn(fibers, s)
    ensures NoSiblingOn(fibers, [x] + s)
  {
    forall k | 0 <= k < |[x] + s| && ([x] + s)[k] < |fibers| ensures fibers[([x] + s)[k]].sibling.None? {
      if k > 0 { assert ([x] + s)[k] == s[k - 1]; }
    }
  }

  lemma NoDomCons(fibers: seq<Fiber>, x: nat, s: seq<nat>)
    requires x < |fibers| && fibers[x].dom.None? && NoDomOn(fibers, s)
    ensures NoDomOn(fibers, [x] + s)
  {
    forall k | 0 <= k < |[x] + s| && ([x] + s)[k] < |fibers| ensures fibers[([x] + s)[k]].dom.None? {
      if k > 0 { assert ([x] + s)[k] == s[k - 1]; }
    }
  }

  /** Uncle returns nothing exactly when no fiber on the ancestor path has a sibling. */
  lemma {:induction false} UncleNoneIffNoSibling(fibers: seq<Fiber>, f: nat)
    requires WellLinked(fibers) && f < |fibers|
    ensures Uncle(fibers, f).None? <==> NoSiblingOn(fibers, Ancestors(fibers, f))
    decreases f
  {
    assert LinkedAt(fibers, f);
    var a := Ancestors(fibers, f);
    if fibers[f].sibling.Some? {
      assert a[0] == f;
    } else if fibers[f].parent.Some? {
      var p := fibers[f].parent.value;
      UncleNoneIffNoSibling(fibers, p);
      var b := Ancestors(fibers, p);
      assert a == [f] + b;
      if Uncle(fibers, p).Some? {
        var k :| 0 <= k < |b| && b[k] < |fibers| && !fibers[b[k]].sibling.None?;
        ConsShift(f, b, k);
      } else {
        NoSiblingCons(fibers, f, b);
      }
    } else {
      assert a == [f];
    }
  }

  /** When Uncle returns a fiber, it is the sibling of the first fiber on the ancestor path
      that has one. */
  lemma {:induction false} UncleIsNearestSibling(fibers: seq<Fiber>, f: nat)
    requires WellLinked(fibers) && f < |fibers|
    ensures Uncle(fibers, f).Some? ==>
      exists k :: 0 <= k < |Ancestors(fibers, f)| && fibers[Ancestors(fibers, f)[k]].sibling == Uncle(fibers, f) &&
        NoSiblingOn(fibers, Ancestors(fibers, f)[..k])
    decreases f
  {
    assert LinkedAt(fibers, f);
    var a := Ancestors(fibers, f);
    if fibers[f].sibling.Some? {
      assert a[0] == f && fibers[a[0]].sibling == Uncle(fibers, f);
      assert a[..0] == [];
    } else if fibers[f].parent.Some? {
      var p := fibers[f].parent.value;
      UncleIsNearestSibling(fibers, p);
      var b := Ancestors(fibers, p);
      assert a == [f] + b;
      if Uncle(fibers, p).Some? {
        var k :| 0 <= k < |b| && fibers[b[k]].sibling == Uncle(fibers, p) && NoSiblingOn(fibers, b[..k]);
        ConsShift(f, b, k);
        NoSiblingCons(fibers, f, b[..k]);
        assert fibers[a[k + 1]].sibling == Uncle(fibers, f) && NoSiblingOn(fibers, a[..k + 1]);
      }
    }
  }

  /**
   * The next-unit selection of performUnitOfWork: the child if there is one, otherwise a
   * walk up the parent links returning the first sibling found.
   */
  method NextUnitOfWork(fibers: seq<Fiber>, f: nat) returns (next: Option<nat>)
    requires WellLinked(fibers) && f < |fibers|
    ensures next == NextFiber(fibers, f)
  {
    if fibers[f].child.Some? {
      return fibers[f].child;
    }
    var nextFiber: Option<nat> := Some(f);
    while nextFiber.Some?
      invariant nextFiber.Some? ==> nextFiber.value < |fibers| && Uncle(fibers, nextFiber.value) == Uncle(fibers, f)
      invariant nextFiber.None? ==> Uncle(fibers, f).None?
      decreases if nextFiber.Some? then nextFiber.value + 1 else 0
    {
      assert LinkedAt(fibers, nextFiber.value);
      if fibers[nextFiber.value].sibling.Some? {
        return fibers[nextFiber.value].sibling;
      }
      nextFiber := fibers[nextFiber.value].parent;
    }
    return None;
  }

  /** The next-unit selection of performUnitOfWork as written: the component branch falls
      off the end of the function, so after a component fiber there is no next unit. */
  function NextFiberAsWritten(fibers: seq<Fiber>, f: nat): (r: Option<nat>)
    requires WellLinked(fibers) && f < |fibers|
    ensures fibers[f].kind.Some? && fibers[f].kind.value.Component? ==> r.None?
    ensures !(fibers[f].kind.Some? && fibers[f].kind.value.Component?) ==> r == NextFiber(fibers, f)
  {
    if fibers[f].kind.Some? && fibers[f].kind.value.Component? then None else NextFiber(fibers, f)
  }

  /** A component fiber with a child (every rendered component has one: the element its body
      returns) ends the walk as written, where the intended selection moves on to the child. */
  lemma ComponentEndsWalkAsWritten(fibers: seq<Fiber>, f: nat)
    requires WellLinked(fibers) && f < |fibers|
    requires fibers[f].kind.Some? && fibers[f].kind.value.Component? && fibers[f].child.Some?
    ensures NextFiberAsWritten(fibers, f).None? && NextFiber(fibers, f) == fibers[f].child
  {
  }

  /** The nearest fiber from `a` upwards (inclusive) that owns a realized node; component
      fibers own none and are skipped. Roots always own one, so there always is one. */
  function DomAncestor(fibers: seq<Fiber>, a: nat): (r: nat)
    requires WellLinked(fibers) && a < |fibers|
    ensures r <= a && fibers[r].dom.Some?
    decreases a
  {
    assert LinkedAt(fibers, a);
    if fibers[a].dom.Some? then a else DomAncestor(fibers, fibers[a].parent.value)
  }

  /** DomAncestor is the first fiber on the ancestor path that owns a realized node. */
  lemma {:induction false} DomAncestorIsNearest(fibers: seq<Fiber>, a: nat)
    requires WellLinked(fibers) && a < |fibers|
    ensures exists k ::
      0 <= k < |Ancestors(fibers, a)| && Ancestors(fibers, a)[k] == DomAncestor(fibers, a) &&
      NoDomOn(fibers, Ancestors(fibers, a)[..k])
    decreases a
  {
    assert LinkedAt(fibers, a);
    var path := Ancestors(fibers, a);
    if fibers[a].dom.Some? {
      assert path[0] == DomAncestor(fibers, a) && NoDomOn(fibers, path[..0]);
    } else {
      var p := fibers[a].parent.value;
      DomAncestorIsNearest(fibers, p);
      var rest := Ancestors(fibers, p);
      assert path == [a] + rest;
      var k :| 0 <= k < |rest| && rest[k] == DomAncestor(fibers, p) && NoDomOn(fibers, rest[..k]);
      ConsShift(a, rest, k);
      NoDomCons(fibers, a, rest[..k]);
      assert path[k + 1] == DomAncestor(fibers, a) && NoDomOn(fibers, path[..k + 1]);
    }
  }

  /** The realized node a fiber's own node is attached to or removed from: the node of the
      nearest ancestor that owns one. */
  function DomParent(fibers: seq<Fiber>, f: nat): nat
    requires WellLinked(fibers) && f < |fibers| && fibers[f].parent.Some?
  {
    assert LinkedAt(fibers, f);
    fibers[DomAncestor(fibers, fibers[f].parent.value)].dom.value
  }

  /** The node a fiber is attached to is the node of a strict ancestor, so it is in the store. */
  lemma DomParentIn(fibers: seq<Fiber>, f: nat, n: nat)
    requires WellLinked(fibers) && f < |fibers| && fibers[f].parent.Some? && DomsIn(fibers, n)
    ensures LinkedAt(fibers, f) && DomAncestor(fibers, fibers[f].parent.value) < f
    ensures DomParent(fibers, f) < n
  {
    assert LinkedAt(fibers, f);
  }

  /** The ancestor walk of commitWork, returning the realized node it ends at. */
  method FindDomParent(fibers: seq<Fiber>, f: nat) returns (h: nat)
    requires WellLinked(fibers) && f < |fibers| && fibers[f].parent.Some?
    ensures h == DomParent(fibers, f)
  {
    assert LinkedAt(fibers, f);
    var domParentFiber: nat := fibers[f].parent.value;
    while fibers[domParentFiber].dom.None?
      invariant domParentFiber < |fibers|
      invariant DomAncestor(fibers, domParentFiber) == DomAncestor(fibers, fibers[f].parent.value)
      decreases domParentFiber
    {
      assert LinkedAt(fibers, domParentFiber);
      domParentFiber := fibers[domParentFiber].parent.value;
    }
    h := fibers[domParentFiber].dom.value;
  }

  /** The path from `f` down through first children. */
  function FirstChildPath(fibers: seq<Fiber>, f: nat): (r: seq<nat>)
    requires WellLinked(fibers) && f < |fibers|
    ensures |r| > 0 && r[0] == f
    ensures forall k :: 0 <= k < |r| ==> r[k] < |fibers|
    ensures forall a, b :: 0 <= a && b == a + 1 && b < |r| ==> fibers[r[a]].child == Some(r[b])
    ensures fibers[r[|r| - 1]].child.None?
    decreases |fibers| - f
  {
    assert LinkedAt(fibers, f);
    match fibers[f].child
    case None => [f]
    case Some(c) => [f] + FirstChildPath(fibers, c)
  }

  /** The realized node commitDeletion removes for `f`: its own, or else that of the first
      fiber down its first-child path that owns one (a component renders into its child). */
  function DeletedNode(fibers: seq<Fiber>, f: nat): (r: Option<nat>)
    requires WellLinked(fibers) && f < |fibers|
    ensures fibers[f].dom.Some? ==> r == fibers[f].dom
    decreases |fibers| - f
  {
    assert LinkedAt(fibers, f);
    if fibers[f].dom.Some? then fibers[f].dom
    else match fibers[f].child
      case None => None
      case Some(c) => DeletedNode(fibers, c)
  }

  /** DeletedNode is nothing exactly when no fiber on the first-child path owns a node. */
  lemma {:induction false} DeletedNodeNoneIffNoDom(fibers: seq<Fiber>, f: nat)
    requires WellLinked(fibers) && f < |fibers|
    ensures DeletedNode(fibers, f).None? <==> NoDomOn(fibers, FirstChildPath(fibers, f))
    decreases |fibers| - f
  {
    assert LinkedAt(fibers, f);
    var path := FirstChildPath(fibers, f);
    if fibers[f].dom.Some? {
      assert path[0] == f;
    } else if fibers[f].child.Some? {
      var c := fibers[f].child.value;
      DeletedNodeNoneIffNoDom(fibers, c);
      var rest := FirstChildPath(fibers, c);
      assert path == [f] + rest;
      if DeletedNode(fibers, c).Some? {
        var k :| 0 <= k < |rest| && rest[k] < |fibers| && !fibers[rest[k]].dom.None?;
        ConsShift(f, rest, k);
      } else {
        NoDomCons(fibers, f, rest);
      }
    } else {
      assert path == [f];
    }
  }

  /** When DeletedNode is a node, it is the node of the first fiber on the first-child path
      that owns one. */
  lemma {:induction false} DeletedNodeIsFirstOnPath(fibers: seq<Fiber>, f: nat)
    requires WellLinked(fibers) && f < |fibers|
    ensures DeletedNode(fibers, f).Some? ==>
      exists k :: 0 <= k < |FirstChildPath(fibers, f)| && fibers[FirstChildPath(fibers, f)[k]].dom == DeletedNode(fibers, f) &&
        NoDomOn(fibers, FirstChildPath(fibers, f)[..k])
    decreases |fibers| - f
  {
    assert LinkedAt(fibers, f);
    var path := FirstChildPath(fibers, f);
    if fibers[f].dom.Some? {
      assert path[0] == f && fibers[path[0]].dom == DeletedNode(fibers, f);
      assert path[..0] == [];
    } else if fibers[f].child.Some? {
      var c := fibers[f].child.value;
      DeletedNodeIsFirstOnPath(fibers, c);
      var rest := FirstChildPath(fibers, c);
      assert path == [f] + rest;
      if DeletedNode(fibers, c).Some? {
        var k :| 0 <= k < |rest| && fibers[rest[k]].dom == DeletedNode(fibers, c) && NoDomOn(fibers, rest[..k]);
        ConsShift(f, rest, k);
        NoDomCons(fibers, f, rest[..k]);
        assert fibers[path[k + 1]].dom == DeletedNode(fibers, f) && NoDomOn(fibers, path[..k + 1]);
      }
    }
  }
}
