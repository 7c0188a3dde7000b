/**
 * The property diff applied to a realized node when its fiber is an UPDATE: the key
 * predicates (`isEvent`, `isProperty`, `isNew`, `isGone`) and `updateDom`.
 */
module PropDiff {
  import opened Wrappers
  import opened Elements
  import opened Sink

  function Get(p: Props, key: string): Option<Value> {
    if key in p then Some(p[key]) else None
  }

  predicate StartsWith(s: string, prefix: string) {
    |prefix| <= |s| && s[..|prefix|] == prefix
  }

  /** Event-handler properties are the ones named "on…". */
  predicate IsEvent(key: string) {
    StartsWith(key, "on")
  }

  /** Plain properties: neither the children nor an event handler. */
  predicate IsProperty(key: string) {
    key != ChildrenKey && !IsEvent(key)
  }

  /** `prev[key] !== next[key]`, where a missing key reads as `undefined`. */
  predicate IsNew(prev: Props, next: Props, key: string) {
    Get(prev, key) != Get(next, key)
  }

  predicate IsGone(next: Props, key: string) {
    key !in next
  }

  /** The two kinds of primitive `isEvent` compares as written: a string and a boolean. */
  datatype JsPrimitive = JsString(str: string) | JsBoolean(truth: bool)

  /** JavaScript's `!==` on primitives: different types are always unequal. */
  predicate StrictlyUnequal(a: JsPrimitive, b: JsPrimitive) {
    match (a, b)
    case (JsString(x), JsString(y)) => x != y
    case (JsBoolean(x), JsBoolean(y)) => x != y
    case _ => true
  }

  /** `isEvent` as written compares the key (a string) with `key.startsWith("on")` (a boolean). */
  function IsEventAsWritten(key: string): (r: bool)
    ensures r
  {
    StrictlyUnequal(JsString(key), JsBoolean(StartsWith(key, "on")))
  }

  /** `isProperty` as written, built on `isEvent` as written: it holds of no key at all. */
  function IsPropertyAsWritten(key: string): (r: bool)
    ensures !r
  {
    key != ChildrenKey && !IsEventAsWritten(key)
  }

  /** The listeners a props object registers: one per event property. */
  function EventsOf(p: Props): set<Listener> {
    set k | k in p && IsEvent(k) :: Listener(k, p[k])
  }

  /** Among the keys `done` of the old props: the listeners to remove (gone or changed). */
  function RemovedAmong(prev: Props, next: Props, done: set<string>): set<Listener> {
    set k | k in done && k in prev && IsEvent(k) && (!(k in next) || IsNew(prev, next, k)) :: Listener(k, prev[k])
  }

  /** Among the keys `done` of the new props: the listeners to add (new or changed). */
  function AddedAmong(prev: Props, next: Props, done: set<string>): set<Listener> {
    set k | k in done && k in next && IsEvent(k) && IsNew(prev, next, k) :: Listener(k, next[k])
  }

  /** Among the keys `done` of the old props: the plain properties that are gone. */
  function ClearedAmong(next: Props, done: set<string>): set<string> {
    set k | k in done && IsProperty(k) && IsGone(next, k)
  }

  /** Among the keys `done` of the new props: the plain properties that are new or changed. */
  function ChangedAmong(prev: Props, next: Props, done: set<string>): set<string> {
    set k | k in done && k in next && IsProperty(k) && IsNew(prev, next, k)
  }

  function Blanked(attrs: map<string, Value>, keys: set<string>): map<string, Value> {
    attrs + map k | k in keys :: Str("")
  }

  function Assigned(attrs: map<string, Value>, next: Props, keys: set<string>): map<string, Value> {
    attrs + map k | k in keys && k in next :: next[k]
  }

  /** The properties of a node after `updateDom`: gone plain properties read "", new or changed
      ones read their new value, and everything else is left as it was. */
  function DiffAttrs(attrs: map<string, Value>, prev: Props, next: Props): (r: map<string, Value>)
    ensures (forall k :: k in prev && IsProperty(k) ==> k in attrs && attrs[k] == prev[k]) ==>
              forall k :: k in next && IsProperty(k) ==> k in r && r[k] == next[k]
    ensures forall k :: k in prev && IsProperty(k) && k !in next ==> k in r && r[k] == Str("")
    ensures forall k :: k in next && IsProperty(k) && IsNew(prev, next, k) ==> k in r && r[k] == next[k]
    ensures forall k :: !IsProperty(k) || !IsNew(prev, next, k) ==>
              (k in r <==> k in attrs) && (k in attrs ==> r[k] == attrs[k])
    ensures prev == next ==> r == attrs
  {
    var r := Assigned(Blanked(attrs, ClearedAmong(next, prev.Keys)), next, ChangedAmong(prev, next, next.Keys));
    assert forall k ::
      && (k in prev && IsProperty(k) && k !in next ==> k in r && r[k] == Str(""))
      && (k in next && IsProperty(k) && IsNew(prev, next, k) ==> k in r && r[k] == next[k])
      && (!IsProperty(k) || !IsNew(prev, next, k) ==> (k in r <==> k in attrs) && (k in attrs ==> r[k] == attrs[k]))
      && (k in prev && IsProperty(k) && k in attrs && attrs[k] == prev[k] && k in next ==> k in r && r[k] == next[k])
    by {
      forall k ensures
        && (k in prev && IsProperty(k) && k !in next ==> k in r && r[k] == Str(""))
        && (k in next && IsProperty(k) && IsNew(prev, next, k) ==> k in r && r[k] == next[k])
        && (!IsProperty(k) || !IsNew(prev, next, k) ==> (k in r <==> k in attrs) && (k in attrs ==> r[k] == attrs[k]))
        && (k in prev && IsProperty(k) && k in attrs && attrs[k] == prev[k] && k in next ==> k in r && r[k] == next[k])
      {
        DiffAttrsAt(attrs, prev, next, k);
      }
    }
    r
  }

  /** What the diff leaves at key `k`: the new value of a new or changed plain property, ""
      for a gone one, and otherwise whatever was there. */
  predicate DiffAttrsKey(attrs: map<string, Value>, prev: Props, next: Props, r: map<string, Value>, k: string) {
    if IsProperty(k) && k in next && IsNew(prev, next, k) then k in r && r[k] == next[k]
    else if IsProperty(k) && k in prev && k !in next then k in r && r[k] == Str("")
    else (k in r <==> k in attrs) && (k in attrs ==> r[k] == attrs[k])
  }

  lemma DiffAttrsAt(attrs: map<string, Value>, prev: Props, next: Props, k: string)
    ensures DiffAttrsKey(attrs, prev, next,
      Assigned(Blanked(attrs, ClearedAmong(next, prev.Keys)), next, ChangedAmong(prev, next, next.Keys)), k)
  {
    var blanked := Blanked(attrs, ClearedAmong(next, prev.Keys));
    if IsProperty(k) && k in prev && k !in next {
      assert k in ClearedAmong(next, prev.Keys);
    } else if IsProperty(k) && k in next && IsNew(prev, next, k) {
      assert k in ChangedAmong(prev, next, next.Keys);
    } else {
      assert k !in ClearedAmong(next, prev.Keys) && k !in ChangedAmong(prev, next, next.Keys);
    }
  }

  /** A listener `updateDom` removes: registered for an event prop whose handler is gone or changed. */
  predicate Stale(prev: Props, next: Props, l: Listener) {
    l.event in prev && IsEvent(l.event) && IsNew(prev, next, l.event) && l.handler == prev[l.event]
  }

  /** A listener `updateDom` adds: for an event prop whose handler is new or changed. */
  predicate Fresh(prev: Props, next: Props, l: Listener) {
    l.event in next && IsEvent(l.event) && IsNew(prev, next, l.event) && l.handler == next[l.event]
  }

  /** The listeners of a node after `updateDom`: those of gone or changed handlers removed,
      those of new or changed handlers added, and no other listener added or removed. */
  function DiffListeners(ls: set<Listener>, prev: Props, next: Props): (r: set<Listener>)
    ensures forall k :: k in next && IsEvent(k) && IsNew(prev, next, k) ==> Listener(k, next[k]) in r
    ensures forall k :: k in prev && IsEvent(k) && IsNew(prev, next, k) ==> Listener(k, prev[k]) !in r
    ensures forall l :: l in ls && !Stale(prev, next, l) ==> l in r
    ensures forall l :: l in r && l !in ls ==> Fresh(prev, next, l)
    ensures ls == EventsOf(prev) ==> r == EventsOf(next)
    ensures prev == next ==> r == ls
  {
    var r := (ls - RemovedAmong(prev, next, prev.Keys)) + AddedAmong(prev, next, next.Keys);
    forall k | k in next && IsEvent(k) && IsNew(prev, next, k) ensures Listener(k, next[k]) in r {
      assert Listener(k, next[k]) in AddedAmong(prev, next, next.Keys);
    }
    forall k | k in prev && IsEvent(k) && IsNew(prev, next, k) ensures Listener(k, prev[k]) !in r {
      assert Listener(k, prev[k]) in RemovedAmong(prev, next, prev.Keys);
      assert Listener(k, prev[k]) !in AddedAmong(prev, next, next.Keys);
    }
    forall l | l in ls && !Stale(prev, next, l) ensures l in r {
      assert l !in RemovedAmong(prev, next, prev.Keys);
    }
    assert ls == EventsOf(prev) ==> r == EventsOf(next) by {
      if ls == EventsOf(prev) {
        forall l | l in r ensures l in EventsOf(next) {
          if l in AddedAmong(prev, next, next.Keys) {
          } else {
            assert l in ls;
            var k :| k in prev && IsEvent(k) && l == Listener(k, prev[k]);
          }
        }
        forall l | l in EventsOf(next) ensures l in r {
          var k :| k in next && IsEvent(k) && l == Listener(k, next[k]);
          if IsNew(prev, next, k) {
            assert l in AddedAmong(prev, next, next.Keys);
          } else {
            assert l in ls;
          }
        }
      }
    }
    r
  }

  /** A node after `updateDom(node, prev, next)`. */
  function DiffNode(node: DomNode, prev: Props, next: Props): (r: DomNode)
    ensures r.kind == node.kind && r.children == node.children
    ensures prev == next ==> r == node
  {
    node.(attrs := DiffAttrs(node.attrs, prev, next), listeners := DiffListeners(node.listeners, prev, next))
  }

  /** The plain-property part of `updateDom` as written, with `isProperty` as written:
      no property is ever cleared or set. */
  function DiffAttrsAsWritten(attrs: map<string, Value>, prev: Props, next: Props): (r: map<string, Value>)
    ensures r == attrs
  {
    var cleared := set k | k in prev && IsPropertyAsWritten(k) && IsGone(next, k);
    var changed := set k | k in next && IsPropertyAsWritten(k) && IsNew(prev, next, k);
    assert cleared == {} && changed == {};
    Assigned(Blanked(attrs, cleared), next, changed)
  }
}

module UpdateDom {
  import opened Elements
  import opened Sink
  import opened PropDiff

  /**
   * updateDom: brings the node `h` from the old props to the new ones in four passes over the
   * keys — remove gone or changed listeners, blank gone properties, assign new or changed
   * properties, add new or changed listeners — leaving it as DiffNode describes.
   */
  method UpdateDom(doc: Document, h: nat, prev: Props, next: Props)
    requires h < |doc.nodes|
    modifies doc
    ensures doc.nodes == old(doc.nodes)[h := DiffNode(old(doc.nodes)[h], prev, next)]
  {
    ghost var node := doc.nodes[h];
    RemoveStaleListeners(doc, h, prev, next);
    BlankGoneProperties(doc, h, prev, next);
    AssignChangedProperties(doc, h, prev, next);
    AddNewListeners(doc, h, prev, next);
    assert doc.nodes[h] == DiffNode(node, prev, next);
  }

  /** Removes the listeners of old event properties that are gone or changed. */
  method RemoveStaleListeners(doc: Document, h: nat, prev: Props, next: Props)
    requires h < |doc.nodes|
    modifies doc
    ensures doc.nodes == old(doc.nodes)[h := old(doc.nodes)[h].(listeners := old(doc.nodes)[h].listeners - RemovedAmong(prev, next, prev.Keys))]
  {
    ghost var node := doc.nodes[h];
    var keys := prev.Keys;
    ghost var done: set<string> := {};
    assert RemovedAmong(prev, next, done) == {};
    assert node.(listeners := node.listeners - {}) == node;
    while keys != {}
      invariant keys + done == prev.Keys && keys !! done
      invariant doc.nodes == old(doc.nodes)[h := node.(listeners := node.listeners - RemovedAmong(prev, next, done))]
      decreases keys
    {
      var k :| k in keys;
      if IsEvent(k) && (!(k in next) || IsNew(prev, next, k)) {
        assert RemovedAmong(prev, next, done + {k}) == RemovedAmong(prev, next, done) + {Listener(k, prev[k])};
        ghost var before := doc.nodes;
        assert before[h].listeners == node.listeners - RemovedAmong(prev, next, done);
        doc.RemoveEventListener(h, Listener(k, prev[k]));
        assert doc.nodes == before[h := before[h].(listeners := before[h].listeners - {Listener(k, prev[k])})];
        assert doc.nodes[h].listeners == node.listeners - RemovedAmong(prev, next, done + {k});
      } else {
        assert RemovedAmong(prev, next, done + {k}) == RemovedAmong(prev, next, done);
      }
      keys, done := keys - {k}, done + {k};
    }
  }

  /** Assigns "" to the old plain properties that are gone. */
  method BlankGoneProperties(doc: Document, h: nat, prev: Props, next: Props)
    requires h < |doc.nodes|
    modifies doc
    ensures doc.nodes == old(doc.nodes)[h := old(doc.nodes)[h].(attrs := Blanked(old(doc.nodes)[h].attrs, ClearedAmong(next, prev.Keys)))]
  {
    ghost var node := doc.nodes[h];
    var keys := prev.Keys;
    ghost var done: set<string> := {};
    assert Blanked(node.attrs, ClearedAmong(next, done)) == node.attrs;
    while keys != {}
      invariant keys + done == prev.Keys && keys !! done
      invariant doc.nodes == old(doc.nodes)[h := node.(attrs := Blanked(node.attrs, ClearedAmong(next, done)))]
      decreases keys
    {
      var k :| k in keys;
      if IsProperty(k) && IsGone(next, k) {
        assert ClearedAmong(next, done + {k}) == ClearedAmong(next, done) + {k};
        BlankedStep(node.attrs, ClearedAmong(next, done), k);
        ghost var before := doc.nodes;
        doc.SetProperty(h, k, Str(""));
        assert doc.nodes == before[h := before[h].(attrs := before[h].attrs[k := Str("")])];
      } else {
        assert ClearedAmong(next, done + {k}) == ClearedAmong(next, done);
      }
      keys, done := keys - {k}, done + {k};
    }
  }

  /** Assigns the new value of every plain property that is new or changed. */
  method AssignChangedProperties(doc: Document, h: nat, prev: Props, next: Props)
    requires h < |doc.nodes|
    modifies doc
    ensures doc.nodes == old(doc.nodes)[h := old(doc.nodes)[h].(attrs := Assigned(old(doc.nodes)[h].attrs, next, ChangedAmong(prev, next, next.Keys)))]
  {
    ghost var node := doc.nodes[h];
    var keys := next.Keys;
    ghost var done: set<string> := {};
    assert Assigned(node.attrs, next, ChangedAmong(prev, next, done)) == node.attrs;
    while keys != {}
      invariant keys + done == next.Keys && keys !! done
      invariant doc.nodes == old(doc.nodes)[h := node.(attrs := Assigned(node.attrs, next, ChangedAmong(prev, next, done)))]
      decreases keys
    {
      var k :| k in keys;
      if IsProperty(k) && IsNew(prev, next, k) {
        assert ChangedAmong(prev, next, done + {k}) == ChangedAmong(prev, next, done) + {k};
        AssignedStep(node.attrs, next, ChangedAmong(prev, next, done), k);
        ghost var before := doc.nodes;
        doc.SetProperty(h, k, next[k]);
        assert doc.nodes == before[h := before[h].(attrs := before[h].attrs[k := next[k]])];
      } else {
        assert ChangedAmong(prev, next, done + {k}) == ChangedAmong(prev, next, done);
      }
      keys, done := keys - {k}, done + {k};
    }
  }

  /** Registers the listener of every event property that is new or changed. */
  method AddNewListeners(doc: Document, h: nat, prev: Props, next: Props)
    requires h < |doc.nodes|
    modifies doc
    ensures doc.nodes == old(doc.nodes)[h := old(doc.nodes)[h].(listeners := old(doc.nodes)[h].listeners + AddedAmong(prev, next, next.Keys))]
  {
    ghost var node := doc.nodes[h];
    var keys := next.Keys;
    ghost var done: set<string> := {};
    assert AddedAmong(prev, next, done) == {};
    assert node.(listeners := node.listeners + {}) == node;
    while keys != {}
      invariant keys + done == next.Keys && keys !! done
      invariant doc.nodes == old(doc.nodes)[h := node.(listeners := node.listeners + AddedAmong(prev, next, done))]
      decreases keys
    {
      var k :| k in keys;
      if IsEvent(k) && IsNew(prev, next, k) {
        assert AddedAmong(prev, next, done + {k}) == AddedAmong(prev, next, done) + {Listener(k, next[k])};
        ghost var before := doc.nodes;
        assert before[h].listeners == node.listeners + AddedAmong(prev, next, done);
        doc.AddEventListener(h, Listener(k, next[k]));
        assert doc.nodes == before[h := before[h].(listeners := before[h].listeners + {Listener(k, next[k])})];
        assert doc.nodes[h].listeners == node.listeners + AddedAmong(prev, next, done + {k});
      } else {
        assert AddedAmong(prev, next, done + {k}) == AddedAmong(prev, next, done);
      }
      keys, done := keys - {k}, done + {k};
    }
  }

  lemma BlankedStep(attrs: map<string, Value>, keys: set<string>, k: string)
    ensures Blanked(attrs, keys + {k}) == Blanked(attrs, keys)[k := Str("")]
  {
  }

  lemma AssignedStep(attrs: map<string, Value>, next: Props, keys: set<string>, k: string)
    requires k in next
    ensures Assigned(attrs, next, keys + {k}) == Assigned(attrs, next, keys)[k := next[k]]
  {
  }
}
