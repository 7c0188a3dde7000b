/**
 * The mutation sink: the part of the DOM the runtime talks to. Realized nodes live in a
 * store indexed by handle; the runtime only creates nodes, appends and removes children,
 * assigns properties and (un)registers event listeners.
 */
module Sink {
  import opened Wrappers
  import opened Elements

  /** A registered event listener: the event property name and its handler. */
  datatype Listener = Listener(event: string, handler: Value)

  /** A realized node: its kind, its assigned properties, its listeners and its child handles. */
  datatype DomNode = DomNode(kind: Option<Kind>, attrs: map<string, Value>, listeners: set<Listener>, children: seq<nat>)

  /** The child list without the first occurrence of `x`. */
  function RemoveFirst(s: seq<nat>, x: nat): (r: seq<nat>)
    ensures x !in s ==> r == s
    ensures x in s ==> |r| == |s| - 1
    ensures multiset(r) == multiset(s) - multiset{x}
  {
    if s == [] then []
    else
      assert s == [s[0]] + s[1..];
      if s[0] == x then s[1..]
      else [s[0]] + RemoveFirst(s[1..], x)
  }

  /** `parent.appendChild(child)`: the child goes last in the parent's child list. */
  function Appended(nodes: seq<DomNode>, parent: nat, child: nat): (r: seq<DomNode>)
    requires parent < |nodes|
    ensures |r| == |nodes| && r[parent].children == nodes[parent].children + [child]
  {
    nodes[parent := nodes[parent].(children := nodes[parent].children + [child])]
  }

  /** `parent.removeChild(child)`: the child leaves the parent's child list. */
  function Removed(nodes: seq<DomNode>, parent: nat, child: nat): (r: seq<DomNode>)
    requires parent < |nodes|
    ensures |r| == |nodes| && multiset(r[parent].children) == multiset(nodes[parent].children) - multiset{child}
  {
    nodes[parent := nodes[parent].(children := RemoveFirst(nodes[parent].children, child))]
  }

  /** Appending changes only the parent's child list. */
  lemma AppendedOnlyParent(nodes: seq<DomNode>, parent: nat, child: nat)
    requires parent < |nodes|
    ensures var r := Appended(nodes, parent, child);
      r[parent] == nodes[parent].(children := nodes[parent].children + [child]) &&
      forall q :: 0 <= q < |nodes| && q != parent ==> r[q] == nodes[q]
  {
  }

  /** Removing changes only the parent's child list, and nothing at all when the child is
      not in it. */
  lemma RemovedOnlyParent(nodes: seq<DomNode>, parent: nat, child: nat)
    requires parent < |nodes|
    ensures var r := Removed(nodes, parent, child);
      (child !in nodes[parent].children ==> r == nodes) &&
      forall q :: 0 <= q < |nodes| && q != parent ==> r[q] == nodes[q]
  {
    if child !in nodes[parent].children {
      assert nodes[parent].(children := RemoveFirst(nodes[parent].children, child)) == nodes[parent];
    }
  }

  /** The document: the store of realized nodes. */
  class Document {
    var nodes: seq<DomNode>

    constructor (initial: seq<DomNode>)
      ensures nodes == initial
    {
      nodes := initial;
    }

    /** Creates a detached node and returns its handle. */
    method CreateNode(kind: Option<Kind>, attrs: map<string, Value>) returns (h: nat)
      modifies this
      ensures h == |old(nodes)| && nodes == old(nodes) + [DomNode(kind, attrs, {}, [])]
    {
      h := |nodes|;
      nodes := nodes + [DomNode(kind, attrs, {}, [])];
    }

    method AppendChild(parent: nat, child: nat)
      requires parent < |nodes|
      modifies this
      ensures nodes == Appended(old(nodes), parent, child)
    {
      nodes := Appended(nodes, parent, child);
    }

    method RemoveChild(parent: nat, child: nat)
      requires parent < |nodes|
      modifies this
      ensures nodes == Removed(old(nodes), parent, child)
    {
      nodes := Removed(nodes, parent, child);
    }

    /** `node[name] = value`. */
    method SetProperty(h: nat, name: string, value: Value)
      requires h < |nodes|
      modifies this
      ensures nodes == old(nodes)[h := old(nodes)[h].(attrs := old(nodes)[h].attrs[name := value])]
    {
      nodes := nodes[h := nodes[h].(attrs := nodes[h].attrs[name := value])];
    }

    method AddEventListener(h: nat, l: Listener)
      requires h < |nodes|
      modifies this
      ensures nodes == old(nodes)[h := old(nodes)[h].(listeners := old(nodes)[h].listeners + {l})]
    {
      nodes := nodes[h := nodes[h].(listeners := nodes[h].listeners + {l})];
    }

    method RemoveEventListener(h: nat, l: Listener)
      requires h < |nodes|
      modifies this
      ensures nodes == old(nodes)[h := old(nodes)[h].(listeners := old(nodes)[h].listeners - {l})]
    {
      nodes := nodes[h := nodes[h].(listeners := nodes[h].listeners - {l})];
    }
  }
}
