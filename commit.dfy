/**
 * Commit: the finished work-in-progress generation is written to the document. Each fiber's
 * effect tag decides what happens to its realized node: PLACEMENT appends it to the node of
 * the nearest ancestor owning one, DELETION removes the fiber's node (or, for a component
 * fiber, the node of its first descendant owning one) from there, UPDATE diffs the node's
 * properties against the alternate's. The walk visits a fiber, then its child subtree, then
 * its following siblings.
 */
module Commit {
  import opened Wrappers
  import opened Elements
  import opened Sink
  import opened Fibers
  import opened PropDiff
  import UpdateDom

  /** Every node handle DeletedNode can return is held by some fiber, so it is in the store. */
  lemma {:induction false} DeletedNodeIn(fibers: seq<Fiber>, f: nat, n: nat)
    requires WellLinked(fibers) && f < |fibers| && DomsIn(fibers, n)
    ensures DeletedNode(fibers, f).Some? ==> DeletedNode(fibers, f).value < n
    decreases |fibers| - f
  {
    assert LinkedAt(fibers, f);
    if fibers[f].dom.None? && fibers[f].child.Some? {
      DeletedNodeIn(fibers, fibers[f].child.value, n);
    }
  }

  /** The node store after committing the effect of fiber `i` alone. */
  function CommitFiber(fibers: seq<Fiber>, nodes: seq<DomNode>, i: nat): (r: seq<DomNode>)
    requires WellLinked(fibers) && DomsIn(fibers, |nodes|) && i < |fibers| && fibers[i].parent.Some?
    ensures |r| == |nodes|
    ensures forall h :: 0 <= h < |r| ==> r[h].kind == nodes[h].kind
  {
    match fibers[i].effect
    case Placement => Placed(fibers, nodes, i)
    case Deletion => Deleted(fibers, nodes, i)
    case Update => Updated(fibers, nodes, i)
    case NoEffect => nodes
  }

  /** PLACEMENT: the fiber's node, if any, is appended to the node it hangs from. */
  function Placed(fibers: seq<Fiber>, nodes: seq<DomNode>, i: nat): (r: seq<DomNode>)
    requires WellLinked(fibers) && DomsIn(fibers, |nodes|) && i < |fibers| && fibers[i].parent.Some?
    ensures |r| == |nodes|
    ensures forall h :: 0 <= h < |r| ==> r[h].kind == nodes[h].kind
  {
    DomParentIn(fibers, i, |nodes|);
    if fibers[i].dom.Some? then Appended(nodes, DomParent(fibers, i), fibers[i].dom.value) else nodes
  }

  /** DELETION: the deleted node, if any, is removed from the node the fiber hangs from. */
  function Deleted(fibers: seq<Fiber>, nodes: seq<DomNode>, i: nat): (r: seq<DomNode>)
    requires WellLinked(fibers) && DomsIn(fibers, |nodes|) && i < |fibers| && fibers[i].parent.Some?
    ensures |r| == |nodes|
    ensures forall h :: 0 <= h < |r| ==> r[h].kind == nodes[h].kind
  {
    DomParentIn(fibers, i, |nodes|);
    if DeletedNode(fibers, i).Some? then Removed(nodes, DomParent(fibers, i), DeletedNode(fibers, i).value) else nodes
  }

  /** UPDATE: the fiber's node, if any, gets the property diff from the alternate's props. */
  function Updated(fibers: seq<Fiber>, nodes: seq<DomNode>, i: nat): (r: seq<DomNode>)
    requires WellLinked(fibers) && DomsIn(fibers, |nodes|) && i < |fibers|
    ensures |r| == |nodes|
    ensures forall h :: 0 <= h < |r| ==> r[h].kind == nodes[h].kind
  {
    assert LinkedAt(fibers, i);
    var f := fibers[i];
    if f.dom.Some? && f.alternate.Some? then
      assert LinkedAt(fibers, f.alternate.value);
      nodes[f.dom.value := DiffNode(nodes[f.dom.value], fibers[f.alternate.value].props, f.props)]
    else nodes
  }

  /** PLACEMENT: the fiber's node becomes the last child of the node of its nearest ancestor
      owning one; no other node changes. */
  lemma PlacementAppends(fibers: seq<Fiber>, nodes: seq<DomNode>, i: nat)
    requires WellLinked(fibers) && DomsIn(fibers, |nodes|) && i < |fibers| && fibers[i].parent.Some?
    requires fibers[i].effect == Placement && fibers[i].dom.Some?
    ensures var r := CommitFiber(fibers, nodes, i); var p := DomParent(fibers, i);
      p < |nodes| &&
      r[p].children == nodes[p].children + [fibers[i].dom.value] &&
      r[p].attrs == nodes[p].attrs && r[p].listeners == nodes[p].listeners &&
      forall h :: 0 <= h < |nodes| && h != p ==> r[h] == nodes[h]
  {
    DomParentIn(fibers, i, |nodes|);
    assert CommitFiber(fibers, nodes, i) == Placed(fibers, nodes, i);
    AppendedOnlyParent(nodes, DomParent(fibers, i), fibers[i].dom.value);
  }

  /** DELETION: one occurrence of the removed node leaves the child list of the node of the
      fiber's nearest ancestor owning one; nothing happens when no node is found; no other
      node changes. */
  lemma DeletionRemoves(fibers: seq<Fiber>, nodes: seq<DomNode>, i: nat)
    requires WellLinked(fibers) && DomsIn(fibers, |nodes|) && i < |fibers| && fibers[i].parent.Some?
    requires fibers[i].effect == Deletion
    ensures var r := CommitFiber(fibers, nodes, i); var p := DomParent(fibers, i);
      p < |nodes| &&
      match DeletedNode(fibers, i)
      case None => r == nodes
      case Some(h) =>
        multiset(r[p].children) == multiset(nodes[p].children) - multiset{h} &&
        (h !in nodes[p].children ==> r == nodes) &&
        forall q :: 0 <= q < |nodes| && q != p ==> r[q] == nodes[q]
  {
    DomParentIn(fibers, i, |nodes|);
    assert CommitFiber(fibers, nodes, i) == Deleted(fibers, nodes, i);
    if DeletedNode(fibers, i).Some? {
      RemovedOnlyParent(nodes, DomParent(fibers, i), DeletedNode(fibers, i).value);
    }
  }

  /** UPDATE: the fiber's own node gets the property diff from the alternate's props to the
      fiber's; no other node changes; a fiber without a node changes nothing. */
  lemma UpdateDiffs(fibers: seq<Fiber>, nodes: seq<DomNode>, i: nat)
    requires WellLinked(fibers) && DomsIn(fibers, |nodes|) && i < |fibers| && fibers[i].parent.Some?
    requires fibers[i].effect == Update
    ensures var r := CommitFiber(fibers, nodes, i); var f := fibers[i];
      f.alternate.Some? && f.alternate.value < i &&
      match f.dom
      case None => r == nodes
      case Some(d) =>
        r[d] == DiffNode(nodes[d], fibers[f.alternate.value].props, f.props) &&
        forall q :: 0 <= q < |nodes| && q != d ==> r[q] == nodes[q]
  {
    assert LinkedAt(fibers, i);
    assert CommitFiber(fibers, nodes, i) == Updated(fibers, nodes, i);
  }

  /** The node store after commitWork(f): the fiber, then its child subtree, then its
      following siblings with their subtrees. Node kinds and the number of nodes never change. */
  function CommitTree(fibers: seq<Fiber>, nodes: seq<DomNode>, f: Option<nat>): (r: seq<DomNode>)
    requires WellLinked(fibers) && DomsIn(fibers, |nodes|)
    requires f.Some? ==> f.value < |fibers| && fibers[f.value].parent.Some?
    ensures |r| == |nodes|
    ensures forall h :: 0 <= h < |r| ==> r[h].kind == nodes[h].kind
    decreases if f.Some? then |fibers| - f.value else 0
  {
    match f
    case None => nodes
    case Some(i) =>
      assert LinkedAt(fibers, i);
      var afterSelf := CommitFiber(fibers, nodes, i);
      var afterChild := CommitTree(fibers, afterSelf, fibers[i].child);
      CommitTree(fibers, afterChild, fibers[i].sibling)
  }

  /** A fiber whose effect leaves the store as it is: no placement, no deletion, and an update
      (if any) whose properties equal the alternate's. */
  predicate Quiet(fibers: seq<Fiber>, i: nat)
    requires WellLinked(fibers) && i < |fibers|
  {
    assert LinkedAt(fibers, i);
    var f := fibers[i];
    && f.effect != Placement && f.effect != Deletion
    && (f.effect == Update ==> f.alternate.value < |fibers| && fibers[f.alternate.value].props == f.props)
  }

  /** Committing a generation in which every fiber from `f` on is quiet changes nothing. */
  lemma {:induction false} QuietCommitChangesNothing(fibers: seq<Fiber>, nodes: seq<DomNode>, f: Option<nat>)
    requires WellLinked(fibers) && DomsIn(fibers, |nodes|)
    requires f.Some? ==> f.value < |fibers| && fibers[f.value].parent.Some?
    requires forall i :: (if f.Some? then f.value else |fibers|) <= i < |fibers| ==> Quiet(fibers, i)
    ensures CommitTree(fibers, nodes, f) == nodes
    decreases if f.Some? then |fibers| - f.value else 0
  {
    if f.Some? {
      var i := f.value;
      assert LinkedAt(fibers, i);
      assert Quiet(fibers, i);
      if fibers[i].effect == Update {
        UpdateDiffs(fibers, nodes, i);
      }
      assert CommitFiber(fibers, nodes, i) == nodes;
      QuietCommitChangesNothing(fibers, nodes, fibers[i].child);
      QuietCommitChangesNothing(fibers, nodes, fibers[i].sibling);
    }
  }

  /** The queued deletions a pass may commit: fibers of the arena that hang from a parent. */
  predicate QueuedIn(fibers: seq<Fiber>, deletions: seq<nat>) {
    forall k :: 0 <= k < |deletions| ==> deletions[k] < |fibers| && fibers[deletions[k]].parent.Some?
  }

  /** The deletion pass as written: `deletions.forEach(commitWork)` commits each queued fiber
      with commitWork, so after its removal it also commits the fiber's child subtree and its
      following siblings. */
  function CommitDeletionsAsWritten(fibers: seq<Fiber>, nodes: seq<DomNode>, deletions: seq<nat>): (r: seq<DomNode>)
    requires WellLinked(fibers) && DomsIn(fibers, |nodes|) && QueuedIn(fibers, deletions)
    ensures |r| == |nodes|
    ensures forall h :: 0 <= h < |r| ==> r[h].kind == nodes[h].kind
    decreases |deletions|
  {
    if deletions == [] then nodes
    else CommitDeletionsAsWritten(fibers, CommitTree(fibers, nodes, Some(deletions[0])), deletions[1..])
  }

  /** The deletion pass as intended: each queued fiber is deleted, and only it. Its deleted
      node is removed from the node it hangs from, in queue order. */
  function CommitDeletions(fibers: seq<Fiber>, nodes: seq<DomNode>, deletions: seq<nat>): (r: seq<DomNode>)
    requires WellLinked(fibers) && DomsIn(fibers, |nodes|) && QueuedIn(fibers, deletions)
    ensures |r| == |nodes|
    ensures forall h :: 0 <= h < |r| ==> r[h].kind == nodes[h].kind
    decreases |deletions|
  {
    if deletions == [] then nodes
    else CommitDeletions(fibers, Deleted(fibers, nodes, deletions[0]), deletions[1..])
  }

  /** The nodes the queued fibers delete from node `p`, counted with multiplicity. */
  function DeletedFrom(fibers: seq<Fiber>, deletions: seq<nat>, p: nat): multiset<nat>
    requires WellLinked(fibers) && QueuedIn(fibers, deletions)
    decreases |deletions|
  {
    if deletions == [] then multiset{} else DeletedBy(fibers, deletions[0], p) + DeletedFrom(fibers, deletions[1..], p)
  }

  /** The node fiber `d` deletes from node `p`, if any. */
  function DeletedBy(fibers: seq<Fiber>, d: nat, p: nat): multiset<nat>
    requires WellLinked(fibers) && d < |fibers| && fibers[d].parent.Some?
  {
    if DomParent(fibers, d) == p && DeletedNode(fibers, d).Some? then multiset{DeletedNode(fibers, d).value} else multiset{}
  }

  /** Deleting one queued fiber removes from node `p` exactly what it deletes from it. */
  lemma DeletedOne(fibers: seq<Fiber>, nodes: seq<DomNode>, d: nat, p: nat)
    requires WellLinked(fibers) && DomsIn(fibers, |nodes|) && d < |fibers| && fibers[d].parent.Some? && p < |nodes|
    ensures var r := Deleted(fibers, nodes, d);
      && r[p] == nodes[p].(children := r[p].children)
      && multiset(r[p].children) == multiset(nodes[p].children) - DeletedBy(fibers, d, p)
  {
    DomParentIn(fibers, d, |nodes|);
    if DeletedNode(fibers, d).Some? {
      RemovedOnlyParent(nodes, DomParent(fibers, d), DeletedNode(fibers, d).value);
    }
  }

  /** Taking away `b` and then `c` takes away `b + c`. */
  lemma MultisetMinusTwice(a: multiset<nat>, b: multiset<nat>, c: multiset<nat>)
    ensures (a - b) - c == a - (b + c)
  {
    forall x ensures ((a - b) - c)[x] == (a - (b + c))[x] {
    }
  }

  /** The intended deletion pass removes from each node exactly the nodes the queued fibers
      delete from it, and changes nothing else about it. */
  lemma {:induction false} DeletionsRemoveExactly(fibers: seq<Fiber>, nodes: seq<DomNode>, deletions: seq<nat>, p: nat)
    requires WellLinked(fibers) && DomsIn(fibers, |nodes|) && QueuedIn(fibers, deletions) && p < |nodes|
    ensures var r := CommitDeletions(fibers, nodes, deletions);
      && r[p] == nodes[p].(children := r[p].children)
      && multiset(r[p].children) == multiset(nodes[p].children) - DeletedFrom(fibers, deletions, p)
    decreases |deletions|
  {
    if deletions != [] {
      var d := deletions[0];
      var mid := Deleted(fibers, nodes, d);
      DeletedOne(fibers, nodes, d, p);
      DeletionsRemoveExactly(fibers, mid, deletions[1..], p);
      MultisetMinusTwice(multiset(nodes[p].children), DeletedBy(fibers, d, p), DeletedFrom(fibers, deletions[1..], p));
    }
  }

  /** A component fiber that is deleted while its child still carries the PLACEMENT tag of its
      own first render: the container (node 0) shows only the child's node (node 1). */
  function StaleTagFibers(): seq<Fiber> {
    [ Fiber(None, map[], [], Some(0), None, Some(1), None, None, NoEffect, []),
      Fiber(Some(Component(0)), map[], [], None, Some(0), Some(2), None, None, Deletion, []),
      Fiber(Some(Host("div")), map[], [], Some(1), Some(1), None, None, None, Placement, []) ]
  }

  function StaleTagNodes(): seq<DomNode> {
    [ DomNode(None, map[], {}, [1]), DomNode(Some(Host("div")), map[], {}, []) ]
  }

  /** The example arena is well formed; both fibers under the root hang from node 0, and
      deleting the component removes its child's node 1. */
  lemma StaleTagArena()
    ensures WellLinked(StaleTagFibers()) && DomsIn(StaleTagFibers(), |StaleTagNodes()|) && QueuedIn(StaleTagFibers(), [1])
    ensures DomParent(StaleTagFibers(), 1) == 0 && DomParent(StaleTagFibers(), 2) == 0
    ensures DeletedNode(StaleTagFibers(), 1) == Some(1)
  {
    var fibers := StaleTagFibers();
    assert LinkedAt(fibers, 0) && LinkedAt(fibers, 1) && LinkedAt(fibers, 2);
    assert DomAncestor(fibers, 1) == 0 && DomAncestor(fibers, 0) == 0;
    assert DeletedNode(fibers, 2) == Some(1);
  }

  /** As written, committing the deleted component removes its output and then, recursing
      into its child, appends it again: the container is left as it was. */
  lemma DeletedComponentStaysAsWritten()
    ensures WellLinked(StaleTagFibers()) && DomsIn(StaleTagFibers(), |StaleTagNodes()|) && QueuedIn(StaleTagFibers(), [1])
    ensures CommitDeletionsAsWritten(StaleTagFibers(), StaleTagNodes(), [1]) == StaleTagNodes()
  {
    StaleTagArena();
    var fibers, nodes := StaleTagFibers(), StaleTagNodes();
    var removed := Removed(nodes, 0, 1);
    assert CommitFiber(fibers, nodes, 1) == removed;
    assert CommitTree(fibers, removed, Some(2)) == nodes by {
      assert removed[0].children + [1] == [1];
      assert Appended(removed, 0, 1)[0] == nodes[0] && Appended(removed, 0, 1)[1] == nodes[1];
      assert CommitFiber(fibers, removed, 2) == nodes;
    }
    assert CommitTree(fibers, nodes, Some(1)) == nodes;
    assert [1][1..] == [];
  }

  /** As intended, deleting the component takes its output off the container. */
  lemma DeletedComponentGone()
    ensures WellLinked(StaleTagFibers()) && DomsIn(StaleTagFibers(), |StaleTagNodes()|) && QueuedIn(StaleTagFibers(), [1])
    ensures CommitDeletions(StaleTagFibers(), StaleTagNodes(), [1])[0].children == []
  {
    StaleTagArena();
    assert [1][1..] == [];
    assert Deleted(StaleTagFibers(), StaleTagNodes(), 1) == Removed(StaleTagNodes(), 0, 1);
  }

  /** commitDeletion: removes the fiber's node, or descends through first children until a
      fiber owning a node is found. */
  method CommitDeletion(doc: Document, fibers: seq<Fiber>, f: nat, domParent: nat)
    requires WellLinked(fibers) && f < |fibers| && DomsIn(fibers, |doc.nodes|) && domParent < |doc.nodes|
    modifies doc
    ensures doc.nodes == match DeletedNode(fibers, f)
      case Some(h) => Removed(old(doc.nodes), domParent, h)
      case None => old(doc.nodes)
    decreases |fibers| - f
  {
    assert LinkedAt(fibers, f);
    if fibers[f].dom.Some? {
      doc.RemoveChild(domParent, fibers[f].dom.value);
    } else if fibers[f].child.Some? {
      CommitDeletion(doc, fibers, fibers[f].child.value, domParent);
    }
  }

  /** The effect dispatch of commitWork for fiber `i`: PLACEMENT appends the fiber's node to
      the node of its nearest ancestor owning one, DELETION removes the deleted node from
      there, UPDATE diffs the node's properties against the alternate's. */
  method CommitEffect(doc: Document, fibers: seq<Fiber>, i: nat)
    requires WellLinked(fibers) && DomsIn(fibers, |doc.nodes|) && i < |fibers| && fibers[i].parent.Some?
    modifies doc
    ensures doc.nodes == CommitFiber(fibers, old(doc.nodes), i)
  {
    assert LinkedAt(fibers, i);
    var domParent := FindDomParent(fibers, i);
    var fiber := fibers[i];
    if fiber.effect == Placement && fiber.dom.Some? {
      doc.AppendChild(domParent, fiber.dom.value);
    } else if fiber.effect == Deletion {
      CommitDeletion(doc, fibers, i, domParent);
    } else if fiber.effect == Update && fiber.dom.Some? {
      assert LinkedAt(fibers, fiber.alternate.value);
      UpdateDom.UpdateDom(doc, fiber.dom.value, fibers[fiber.alternate.value].props, fiber.props);
    }
  }

  /** commitWork: commits the fiber's effect, then its child subtree, then its following
      siblings. */
  method CommitWork(doc: Document, fibers: seq<Fiber>, f: Option<nat>)
    requires WellLinked(fibers) && DomsIn(fibers, |doc.nodes|)
    requires f.Some? ==> f.value < |fibers| && fibers[f.value].parent.Some?
    modifies doc
    ensures doc.nodes == CommitTree(fibers, old(doc.nodes), f)
    decreases if f.Some? then |fibers| - f.value else 0
  {
    if f.None? {
      return;
    }
    var i := f.value;
    assert LinkedAt(fibers, i);
    CommitEffect(doc, fibers, i);
    CommitWork(doc, fibers, fibers[i].child);
    CommitWork(doc, fibers, fibers[i].sibling);
  }

  /** The deletion pass of commitRoot, as intended: each queued fiber is deleted in queue
      order, its deleted node removed from the node of its nearest ancestor owning one. */
  method CommitDeletionQueue(doc: Document, fibers: seq<Fiber>, deletions: seq<nat>)
    requires WellLinked(fibers) && DomsIn(fibers, |doc.nodes|) && QueuedIn(fibers, deletions)
    modifies doc
    ensures doc.nodes == CommitDeletions(fibers, old(doc.nodes), deletions)
  {
    var k := 0;
    while k < |deletions|
      invariant k <= |deletions| && |doc.nodes| == |old(doc.nodes)|
      invariant CommitDeletions(fibers, doc.nodes, deletions[k..]) == CommitDeletions(fibers, old(doc.nodes), deletions)
    {
      assert deletions[k..][1..] == deletions[k + 1..];
      DomParentIn(fibers, deletions[k], |doc.nodes|);
      var domParent := FindDomParent(fibers, deletions[k]);
      CommitDeletion(doc, fibers, deletions[k], domParent);
      k := k + 1;
    }
    assert deletions[k..] == [];
  }
}
