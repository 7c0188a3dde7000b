/**
 * Elements: the immutable description of a node to render, and the factory that builds one
 * (`createElement` and `createTextElement` in main.js).
 */
module Elements {
  import opened Wrappers

  /** What an element stands for: a host tag such as "div", the reserved text marker
      ("TEXT_ELEMENT"), or a component function, identified by `id` (function identity). */
  datatype Kind = Host(tag: string) | Text | Component(id: nat)

  /** A property value. `Handler(id)` stands for a function value, compared by identity. */
  datatype Value = Str(s: string) | Num(n: int) | Bool(b: bool) | Handler(id: nat)

  /** The properties of an element other than its children. */
  type Props = map<string, Value>

  /** The reserved property names of the source. */
  const ChildrenKey: string := "children"
  const NodeValueKey: string := "nodeValue"

  /** An element: its kind, its properties and its child elements (`props.children` in the source). */
  datatype Element = Element(kind: Kind, props: Props, children: seq<Element>)

  /** An argument passed as a child: an element object, or a primitive such as a string or number. */
  datatype Child = Obj(element: Element) | Prim(value: Value)

  predicate IsComponent(k: Kind) {
    k.Component?
  }

  /** The text a text element carries, if `e` is one. */
  function TextOf(e: Element): Option<Value> {
    if e.kind == Text && NodeValueKey in e.props then Some(e.props[NodeValueKey]) else None
  }

  /** createTextElement: a childless element of the text kind whose only property is its text. */
  function CreateTextElement(text: Value): (e: Element)
    ensures TextOf(e) == Some(text)
    ensures e.children == [] && e.props.Keys == {NodeValueKey}
  {
    Element(Text, map[NodeValueKey := text], [])
  }

  /** How createElement turns one argument into a child element: objects are kept as they are,
      anything else is wrapped as a text element. */
  function WrapChild(c: Child): (e: Element)
    ensures c.Obj? ==> e == c.element
    ensures c.Prim? ==> e == CreateTextElement(c.value) && TextOf(e) == Some(c.value) && e.children == []
  {
    match c
    case Obj(el) => el
    case Prim(v) => CreateTextElement(v)
  }

  /** createElement: the given kind and properties, with the `children` entry replaced by the
      wrapped children, in the order and number given. */
  function CreateElement(kind: Kind, props: Props, children: seq<Child>): (e: Element)
    ensures e.kind == kind
    ensures ChildrenKey !in e.props
    ensures forall k :: k in props && k != ChildrenKey ==> k in e.props && e.props[k] == props[k]
    ensures forall k :: k in e.props ==> k in props
    ensures |e.children| == |children|
    ensures forall i :: 0 <= i < |children| && children[i].Obj? ==> e.children[i] == children[i].element
    ensures forall i :: 0 <= i < |children| && children[i].Prim? ==>
              e.children[i] == CreateTextElement(children[i].value)
              && TextOf(e.children[i]) == Some(children[i].value) && e.children[i].children == []
  {
    Element(kind, props - {ChildrenKey}, seq(|children|, i requires 0 <= i < |children| => WrapChild(children[i])))
  }
}
