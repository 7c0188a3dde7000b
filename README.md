# A verified model of a Didact-style fiber runtime

`main.js` is a small React-like runtime in the "Didact" style:

- `createElement` builds immutable element descriptions.
- `render` starts a *render cycle* rooted at a container node.
- `workLoop` performs one *unit of work* per fiber until an idle deadline says to yield.
  - Each unit is `performUnitOfWork`. It creates the node of a host fiber, or runs the body of a component fiber.
  - It then *reconciles* the fiber's new child elements against the fibers of the previously committed generation (`reconcileChildren`).
- Once no unit of work is left, `commitRoot` applies the effect tags to the DOM:
  - PLACEMENT appends a node;
  - DELETION removes one;
  - UPDATE runs the property diff `updateDom`.
- `useState` keeps per-component state cells (*hooks*), matched by position with the previous generation. Its `setState` queues an update and restarts the cycle.

This project models that runtime in Dafny and proves what its comments promise.

| file | module | what it holds |
|---|---|---|
| `wrappers.dfy` | `Wrappers` | `Option` |
| `elements.dfy` | `Elements` | element kinds, property values, `createElement`, `createTextElement` |
| `sink.dfy` | `Sink` | the DOM as a class `Document` over a store of realized nodes (create, append, remove, set a property, add or remove a listener) |
| `prop_diff.dfy` | `PropDiff`, `UpdateDom` | the key predicates of `updateDom` and its four passes, as functions and as methods over the store |
| `fibers.dfy` | `Fibers` | the fiber arena, next-fiber selection, the commit target of a fiber, the node a deletion removes |
| `hooks.dfy` | `Hooks` | hook cells, the state folding of `useState`, the queue update of `setState` |
| `reconciliation.dfy` | `Reconciliation` | `reconcileChildren`: the positional walk as a loop, its closed form, and the matching and tagging properties |
| `commit.dfy` | `Commit` | `commitWork`, `commitDeletion` and the deletion pass of `commitRoot` |
| `runtime.dfy` | `Scheduler` | class `Runtime`, which holds the generation variables, with `render`, `setState`, `useState`, the update functions, `performUnitOfWork`, `commitRoot` and `workLoop` |

## Modelling choices

- **Fibers** live in an arena `seq<Fiber>` (the field `Runtime.fibers`), and their links are `Option<nat>` indices.
  - A well-formed arena (`WellLinked`) orders its links: parents and alternates come before a fiber, children and siblings after it.
  - This order makes every walk terminate.
  - Units of work append new fibers and retag old ones in place. Nothing is ever freed.
- **The DOM** is the class `Document`, whose field `nodes: seq<DomNode>` is indexed by handle.
  - `appendChild` appends the child to the list.
  - `removeChild` drops the first occurrence of the child.
- **Props** are `map<string, Value>`. An element's children are kept in their own field, because `createElement` always overrides a `children` prop.
- **Components** are an uninterpreted program: `Components(initials, body, apply)`.
  - `initials(id, props)` gives the initial values of the component's `useState` calls.
  - `body` gives the element it returns.
  - `apply` interprets a queued `Action` on a state.
- **The closure returned by `useState`** becomes the token `HookToken(fiber, index)`.
- **The deadline oracle** is the sequence `timeRemaining`: the i-th call of `deadline.timeRemaining()` returns its i-th entry, and the oracle returns 0 once the sequence is exhausted.
- **Error and null cases:**
  - `Option` models every null reference the source tests.
  - The root fiber has no kind (`kind == None`).

## Model

| member | source | states |
|---|---|---|
| Elements.CreateTextElement | main.js:19-27 | a childless text element whose only property `nodeValue` is the given text |
| Elements.WrapChild | main.js:10-12 | an object child is kept as it is; a primitive child becomes `createTextElement` of that value |
| Elements.CreateElement | main.js:4-15 | the element has the given kind and all given props except `children`; it has exactly as many children as arguments, in order; object children are kept and each primitive child becomes `createTextElement` of its value |
| Sink.RemoveFirst | main.js:189 | removing a child drops exactly one occurrence of it (multiset difference), and nothing when it is absent |
| Sink.Appended | main.js:175 | the parent's child list gains the child at its end; the store keeps its size |
| Sink.Removed | main.js:189 | the parent's children lose one occurrence of the child; the store keeps its size |
| Sink.AppendedOnlyParent | main.js:175 | appending changes only the parent's child list and no other node |
| Sink.RemovedOnlyParent | main.js:189 | removing changes no node other than the parent, and removing a child that is not there changes nothing |
| Sink.Document.CreateNode | main.js:98-113 | a fresh node with the given kind and properties, no listeners and no children, is added at a new handle |
| Sink.Document.AppendChild | main.js:175 | the store after `appendChild` is `Appended` of the store before |
| Sink.Document.RemoveChild | main.js:189 | the store after `removeChild` is `Removed` of the store before |
| Sink.Document.SetProperty | main.js:231 | only the named property of that one node changes |
| Sink.Document.AddEventListener | main.js:247 | only that node's listener set changes, and it gains the listener |
| Sink.Document.RemoveEventListener | main.js:224 | only that node's listener set changes, and it loses the listener |
| PropDiff.IsEventAsWritten | main.js:212 | `key !== key.startsWith("on")` compares a string with a boolean, so every key counts as an event |
| PropDiff.IsPropertyAsWritten | main.js:213 | with `isEvent` as written, no key counts as a plain property |
| PropDiff.DiffAttrsAsWritten | main.js:226-239 | with the predicates as written, `updateDom` never clears or sets a property, whatever the props |
| PropDiff.DiffAttrs | main.js:226-239 | plain properties gone from the new props read `""`; new or changed ones read the new value; every other key is left as it was; identical props change nothing; a node that held the old props ends up holding every new plain property |
| PropDiff.DiffListeners | main.js:218-225 | for every event key that is new, gone or changed, the new handler's listener is present and the old handler's is absent; every other listener stays, and every listener added is one of a new or changed handler; a node listening exactly to the old props' events then listens exactly to the new ones'; identical props change nothing |
| PropDiff.DiffNode | main.js:217-249 | the diff keeps the node's kind and children, and identical props leave the node as it was |
| UpdateDom.UpdateDom | main.js:217-249 | the four passes together change only the one node, and leave it as `DiffNode` of the old and new props |
| UpdateDom.RemoveStaleListeners | main.js:218-225 | the first pass removes exactly the listeners of old event props that are gone or changed |
| UpdateDom.BlankGoneProperties | main.js:226-232 | the second pass sets exactly the gone plain properties to `""` |
| UpdateDom.AssignChangedProperties | main.js:233-239 | the third pass assigns exactly the new or changed plain properties their new values |
| UpdateDom.AddNewListeners | main.js:241-248 | the fourth pass adds exactly the listeners of new or changed event props |
| Fibers.Ancestors | main.js:323-329 | the path from a fiber up through its parents starts at the fiber, follows parent links and ends at a fiber without a parent |
| Fibers.Uncle | main.js:323-329 | the sibling the upward walk returns is a fiber of the arena |
| Fibers.UncleNoneIffNoSibling | main.js:323-329 | the upward walk finds nothing exactly when no fiber on the ancestor path has a sibling |
| Fibers.UncleIsNearestSibling | main.js:323-329 | when the upward walk finds a sibling, it is the sibling of the nearest fiber on the ancestor path that has one |
| Fibers.NextFiber | main.js:320-329 | the next unit of work is the fiber's child when there is one, and is always a fiber of the arena |
| Fibers.NextUnitOfWork | main.js:317-329 | the child-then-upward-sibling loop returns exactly `NextFiber` |
| Fibers.NextFiberAsWritten | main.js:312-330 | as written, a component fiber yields no next unit of work, and every other fiber yields `NextFiber` |
| Fibers.ComponentEndsWalkAsWritten | main.js:312-315 | as written, a component fiber that has a child still ends the walk, where the intended selection returns that child |
| Fibers.DomAncestor | main.js:167-171 | the commit target found by climbing parents is at or above the fiber, and has a realized node |
| Fibers.DomAncestorIsNearest | main.js:166-171 | the commit target is the nearest fiber on the ancestor path that has a node, so component fibers are skipped |
| Fibers.DomParentIn | main.js:167-171 | the commit target of a linked fiber lies strictly above it, and its node is in the store |
| Fibers.FindDomParent | main.js:167-171 | the climbing loop returns the node of the nearest ancestor that has one |
| Fibers.FirstChildPath | main.js:187-193 | the path down first-child links starts at the fiber and ends at a fiber without a child |
| Fibers.DeletedNode | main.js:187-193 | a fiber that has a node has that node removed |
| Fibers.DeletedNodeNoneIffNoDom | main.js:187-193 | there is nothing to remove exactly when no fiber on the first-child path has a node |
| Fibers.DeletedNodeIsFirstOnPath | main.js:187-193 | the removed node is that of the first fiber on the first-child path that has one |
| Hooks.FoldAppend | main.js:266-269 | folding a queue with one more action applies that action last, to the state folded so far |
| Hooks.ApplyQueue | main.js:266-269 | the `forEach` over the queued actions yields the fold of the queue in enqueue order |
| Hooks.ResolvedStates | main.js:256-269 | one state per `useState` call, and without old hooks every call returns its initial value |
| Hooks.FreshHooks | main.js:260-264 | one hook per state, holding that state with an empty queue |
| Hooks.Enqueued | main.js:272 | `setState` appends the action to that one hook's queue; the hook's state and every other hook are unchanged |
| Hooks.QueuedActionSeenByNextRender | main.js:256-272 | after `setState(a)` on hook i, the next render reads hook i's previous result with `a` applied, and every other hook's result is unchanged |
| Reconciliation.SiblingChain | main.js:336 | the sibling list is empty exactly when there is no first fiber, and otherwise starts with it |
| Reconciliation.SiblingChainLinked | main.js:380 | consecutive entries of the sibling list are linked by `sibling`, and every entry after the first has a parent |
| Reconciliation.SiblingChainIncreasing | main.js:380 | the sibling list has increasing indices, all at or after the first |
| Reconciliation.OldChildren | main.js:336 | the old children, reached from the alternate's child, form a linked list of fibers that have parents, in arena order |
| Reconciliation.ReconcileAt | main.js:340-378 | after k positions of the walk, one new fiber has been added per element visited so far |
| Reconciliation.Reconciled | main.js:333-398 | reconciliation adds exactly one new fiber per element |
| Reconciliation.ReconcileWalk | main.js:340-378 | the step-by-step walk has added one new fiber per element visited |
| Reconciliation.WalkIsClosed | main.js:340-378 | the step-by-step walk equals the closed-form description of the result, at every position |
| Reconciliation.ReconcilePosition | main.js:341-378 | one iteration tags and links the fiber of the current position, queues the old fiber when it is doomed, and advances the old-fiber cursor to its sibling |
| Reconciliation.WalkPositions | main.js:340-397 | the loop over positions ends with the step-by-step result, and has queued exactly the doomed old fibers, in order |
| Reconciliation.ReconcileChildren | main.js:333-398 | the arena after `reconcileChildren` is `Reconciled`, and the doomed old fibers are appended to `deletions` |
| Reconciliation.OldFiberLinked | main.js:373-377 | an old fiber changes only its effect tag and its child link, and stays well linked |
| Reconciliation.NewFiberLinked | main.js:349-371 | a new fiber is well linked, and a new fiber with a node took it from its alternate |
| Reconciliation.ReconcileKeepsLinks | main.js:333-398 | reconciliation keeps the arena well linked, and changes only tags and child links of the old fibers |
| Reconciliation.ReconcileKeepsDoms | main.js:349-371 | every node handle in the arena stays a handle of the store |
| Reconciliation.ReconcileByPosition | main.js:345-371 | the new fiber for element j has its kind, props and children, its parent is the fiber being reconciled, and it has no hooks. If old child j has the same kind, the new fiber is UPDATE, reusing that child's node, with the old child as alternate; otherwise it is PLACEMENT with no node and no alternate |
| Reconciliation.DoomedUpToExactly | main.js:373-377 | the first k positions queue exactly the old fibers whose element is missing or of another kind |
| Reconciliation.DoomedExactly | main.js:373-377 | old child j is queued for deletion exactly when there is no element j or element j has another kind; only old children are queued |
| Reconciliation.DoomedTagged | main.js:375 | a queued old fiber carries DELETION, and every other old fiber keeps its tag |
| Reconciliation.DoomedNotReused | main.js:373-377 | no new fiber has a doomed fiber as its alternate |
| Reconciliation.NewChildrenInOrder | main.js:379-395 | the new fibers form the fiber's child list: the first is linked as `child` and each next one as the previous one's `sibling`, in element order |
| Reconciliation.ConsecutiveChain | main.js:387-392 | fibers linked one after the next form a sibling list of exactly those fibers |
| Reconciliation.CursorStepAsWritten | main.js:379-395 | as written, an iteration with no old fiber left, or past the last element, changes nothing |
| Reconciliation.AsWrittenNeverExits | main.js:340-397 | as written, when the old and new child counts differ, the walk never leaves the loop |
| Reconciliation.FirstRenderNeverEndsAsWritten | main.js:340-397 | as written, the first render of an element with one child never ends |
| Commit.CommitFiber | main.js:173-182 | the effect of one fiber keeps the store's size and node kinds |
| Commit.PlacementAppends | main.js:174-175 | a PLACEMENT fiber with a node appends that node to its commit target, and nothing else changes |
| Commit.DeletionRemoves | main.js:177-178 | a DELETION fiber removes the node `commitDeletion` finds from its commit target and changes no other node; with no node to remove it changes nothing |
| Commit.UpdateDiffs | main.js:180-181 | an UPDATE fiber has an earlier alternate; when it has a node, that node alone becomes `DiffNode` of the alternate's props and the fiber's props |
| Commit.CommitTree | main.js:159-185 | committing a subtree keeps the store's size and node kinds |
| Commit.QuietCommitChangesNothing | main.js:159-185 | committing fibers that have no effect to apply leaves the store unchanged |
| Commit.CommitDeletionsAsWritten | main.js:149 | as written, the deletion pass runs `commitWork` on each queued fiber, so its child and sibling subtrees are committed too; the store keeps its size and node kinds |
| Commit.CommitDeletions | main.js:148-149 | the intended deletion pass deletes each queued fiber and nothing else, in queue order; the store keeps its size and node kinds |
| Commit.DeletedOne | main.js:187-193 | deleting one queued fiber changes only the children of a node, and they lose exactly the node that fiber deletes from it |
| Commit.DeletionsRemoveExactly | main.js:148-149 | after the intended pass, every node keeps its kind, properties and listeners, and its children lose exactly, with multiplicity, the nodes the queued fibers delete from it |
| Commit.StaleTagArena | main.js:149 | the example arena (a DELETION component over a child still tagged PLACEMENT) is well formed, and deleting the component removes its child's node from the container |
| Commit.DeletedComponentStaysAsWritten | main.js:149 | as written, with the unconditional `appendChild` of main.js:172 set aside as everywhere in the model, committing that deleted component removes its child's node and then appends it again, so the store is unchanged |
| Commit.DeletedComponentGone | main.js:148-149 | the intended pass leaves the container of that example without children |
| Commit.CommitDeletion | main.js:187-193 | `commitDeletion` removes from the target the node `DeletedNode` names, or nothing when there is none |
| Commit.CommitEffect | main.js:173-182 | the effect dispatch leaves the store as `CommitFiber` describes |
| Commit.CommitWork | main.js:159-185 | `commitWork` leaves the store as `CommitTree` describes: the fiber's effect, then its child's subtree, then its sibling's |
| Commit.CommitDeletionQueue | main.js:148-149 | the loop over `deletions` leaves the store as `CommitDeletions` describes: each queued fiber deleted from its commit target, in queue order |
| Scheduler.RootFiber | main.js:133-140 | a cycle's root fiber has the container's node and the given alternate, and has no parent, child, sibling or hooks |
| Scheduler.RestartFrom | main.js:273-277 | the root `setState` starts reuses the committed root's node, props and children, and takes the committed root as alternate |
| Scheduler.WithHooks | main.js:295 | only the one fiber's hook list changes |
| Scheduler.ChildElements | main.js:297 | a component fiber has exactly one child element, the one its body returns |
| Scheduler.NewNodes | main.js:303-305 | no node is created for a component fiber or for a fiber that already has one; any other fiber gets exactly one fresh node with its kind and props, no listeners and no children |
| Scheduler.RenderStates | main.js:290-299 | a component render yields one state per `useState` call of its body |
| Scheduler.Prepared | main.js:290-305 | preparing a fiber keeps the arena well linked and every other fiber unchanged; the fiber keeps its kind, props, children and links. A component fiber changes only its hooks, to one fresh hook per `useState` call; another fiber without a node changes only its node, to the new handle; a fiber with a node is left as it is |
| Scheduler.ReconcileKeepsDeletions | main.js:373-377 | every fiber queued in `deletions` stays a linked, non-root fiber after reconciliation |
| Scheduler.InvReconciled | main.js:333-398 | reconciling a fiber preserves the runtime invariant, with the doomed fibers added to `deletions` |
| Scheduler.InvPrepared | main.js:290-305 | preparing a fiber preserves the runtime invariant, with the store grown by its new node |
| Scheduler.WorkDescendsFirst | main.js:320-322 | after a fiber's children are reconciled, the next unit of work is its first new child whenever it has one |
| Scheduler.CommitGeneration | main.js:147-151 | the commit of a generation keeps the store's size and node kinds |
| Scheduler.Unit | main.js:310-331 | one unit of work keeps the work state well formed; the store and the deletion queue only gain entries at their end, and the arena never shrinks; it moves to the first new child whenever one was reconciled. Besides appending new fibers, a unit changes old fibers in place: the current fiber's hooks or node, its `child` link, and the DELETION tag of doomed old fibers |
| Scheduler.Units | main.js:198-201 | k successive units of work keep the work state well formed; the store and the deletion queue only gain entries at their end, and the arena never shrinks (fibers are also changed in place, as for `Unit`); with no unit of work left, nothing happens |
| Scheduler.UnitPerformed | main.js:310-331 | a state made of the parts `performUnitOfWork` leaves is exactly `Unit` of the state before |
| Scheduler.RunAppend | main.js:198-199 | a trace of units of work extended by the unit performed on its last state is again a trace |
| Scheduler.RunIsUnits | main.js:198-201 | a trace of k units of work from a state ends where k successive units from that state end |
| Scheduler.QuietGenerationCommitsNothing | main.js:147-151 | a generation with no deletions and no effects to apply commits nothing |
| Scheduler.Runtime.constructor | main.js:116-122 | all generation variables start out null, and there are no fibers and no deletions |
| Scheduler.Runtime.StartCycle | main.js:133-143 | a new root with the committed root as alternate is added, becomes `wipRoot` and `nextUnitOfWork`, and `deletions` is emptied |
| Scheduler.Runtime.Render | main.js:130-144 | `render` roots the cycle at the container with the element as its only child, with `currentRoot` as alternate, empty `deletions`, and the root as next unit of work |
| Scheduler.Runtime.SetState | main.js:271-280 | `setState` queues the action on its hook only. With a committed root, it restarts the cycle from that root's node and props with empty `deletions`; without one, it starts nothing |
| Scheduler.Runtime.UseState | main.js:254-287 | the returned state is the initial value without an old hook, otherwise the old state with the queued actions folded in order; exactly one hook with an empty queue is appended, and `hookIndex` grows by one |
| Scheduler.Runtime.CallUseStates | main.js:254-287 | the body's `useState` calls, in order, return the resolved states and leave one fresh hook per call |
| Scheduler.Runtime.UpdateFunctionComponent | main.js:290-299 | the component becomes `wipFiber` with a reset hook list and its hooks resolved; its single returned element is reconciled |
| Scheduler.Runtime.UpdateHostComponent | main.js:301-309 | a fiber without a node gets a fresh one; its child elements are reconciled |
| Scheduler.Runtime.PerformUnitOfWork | main.js:310-331 | one unit of work prepares the fiber and reconciles its children. It returns the next fiber in child, sibling, uncle order, which is the first new child whenever there is one |
| Scheduler.Runtime.CommitRoot | main.js:147-155 | the deletions are committed by the intended pass, and then the work-in-progress tree; the former `wipRoot` becomes `currentRoot` and `wipRoot` becomes null |
| Scheduler.Runtime.Advance | main.js:199 | `nextUnitOfWork = performUnitOfWork(nextUnitOfWork)` moves the work state by exactly one `Unit` and keeps the runtime invariant and both roots |
| Scheduler.Runtime.PerformUntilYield | main.js:197-201 | the loop leaves the state of `units` successive units of work; it performs at least one unit exactly when work was queued; the deadline had time left after every unit but the last; and when work remains, the last unit saw no time left |
| Scheduler.Runtime.WorkLoop | main.js:196-206 | the fibers, deletions, hook cursor and next unit of work are those after `units` successive units from the old state, and `built`, the store before the commit, extends the old store. The deadline had time left after every unit but the last. While work remains, the last unit saw no time left, nothing is committed and the roots are unchanged. When work runs out, the store is `CommitGeneration` of `built` and the work-in-progress root becomes `currentRoot`. Without a cycle in progress, nothing changes |

## Left out

- `requestIdleCallback` (main.js:207, 209) is left out. `WorkLoop` is one pass, and the deadline is an injected sequence of `timeRemaining()` answers.
- The unconditional `appendChild` at main.js:172 is not modelled. The model follows the effect dispatch at main.js:173-182, which is what the comments describe.
  - For every fiber without a node, which includes every component fiber, the call is `appendChild(null)` and throws a TypeError. So `commitWork` as written throws on any tree that holds a component.
  - For a fiber with a node, the DOM moves that node to the end of its parent rather than adding a second copy. A later `appendChild` of a PLACEMENT node moves it again.
- `createDom` (main.js:98-113) is modelled as a fresh node with the fiber's kind and props. Two details are not modelled:
  - it reads the global `element.type` instead of the fiber's type;
  - it copies the keys of the fiber object, not the keys of its props.
- The event-name munging at main.js:223 and 246 is not modelled. A listener is recorded under its prop name.
- Null children are not modelled: a child is an element object or a primitive value, booleans included (`Value.Bool`). In JavaScript `typeof null` is `"object"`, so a null child would be kept as an element.
- Commit.DeletionRemoves: when no fiber on the first-child path has a node, the recursion at main.js:191 passes an undefined child, and main.js:188 throws when it reads `.dom` of it. The model removes nothing instead.
- Scheduler.Runtime.UseState: called outside a component render (no `wipFiber`), the source throws when it reads `wipFiber.alternate` at main.js:257. The model forbids that call with a precondition instead of modelling the failure.
- Scheduler.Runtime.SetState: with no committed root, the source throws after queuing the action. The model queues the action, starts nothing and returns `false`.
- Scheduler.RenderStates: a component's number of `useState` calls and their initial values depend only on its id and props. Data-dependent hook calls are not modelled.
- Scheduler.Runtime.CommitRoot: the code does not reset `deletions` after the commit, and neither does the model. The next `render` or `setState` resets it.
- Commit.CommitDeletionQueue: `commitRoot` runs `commitWork`, not a bare removal, on each deleted fiber, recursing into its child and sibling. `CommitDeletionsAsWritten` models that; `CommitDeletionQueue` and `CommitRoot` follow the intended pass `CommitDeletions` instead (see Findings).
- Sink.RemoveFirst: the DOM's `removeChild` throws a NotFoundError when the node is not a child of the parent; the model leaves the child list unchanged instead. As written, and with the unconditional `appendChild` of main.js:172 set aside as the model does, the deletion pass can remove a node twice: with old children [A:div, B:span, C:div] and new children [A:div, X:p], both B and C are queued, `commitWork(B)` removes B and then, through B's sibling link, C, and `commitWork(C)` then removes C again, which would throw. With line 172 in place nothing throws here, because line 172 appends C back before each removal.
- DOM semantics beyond the store are left out: moving a node that already has a parent, layout, and events firing.
- Closures and `instanceof Function` dispatch are replaced by the kind datatype and `HookToken`.

## Findings

| source | as written | input that shows it | evidently intended | confidence | as-written member | corrected member |
|---|---|---|---|---|---|---|
| main.js:212 | `isEvent` is `key !== key.startsWith("on")`, a string compared with a boolean, so it is true for every key and `isProperty` is false for every key. The listener passes at main.js:218-225 and 241-248 then also run over `children` and the plain keys | `updateDom(dom, {}, {title: "a"})` sets no property; its add pass then calls `addEventListener("tle", "a")` with a string as the listener, which throws a TypeError | `key.startsWith("on")` | high, not executed | PropDiff.DiffAttrsAsWritten | PropDiff.DiffAttrs |
| main.js:340-397 | the inner loop advances `index` only when `oldFiber` is non-null, and it links a shadowing, untagged copy. The as-written cursor model leaves out that untagged copy, linked at main.js:379-395 | first `render` of an element with one child: no old fiber, one element, and the loop never exits | one positional walk that links the tagged fiber as `child` at index 0 and as the previous fiber's `sibling` otherwise | high, not executed | Reconciliation.FirstRenderNeverEndsAsWritten | Reconciliation.NewChildrenInOrder |
| main.js:312-315 | the component branch returns `undefined` | a component fiber with a child: `workLoop` stops and commits before the component's subtree is built | the same child, sibling, uncle selection for both kinds of fiber | high, not executed | Fibers.ComponentEndsWalkAsWritten | Scheduler.Runtime.PerformUnitOfWork |
| main.js:149 | the deletion pass calls `commitWork` on each queued fiber, which also commits the fiber's child and sibling subtrees with their own tags. This row sets aside the unconditional `appendChild` of main.js:172, as the whole model does | a component fiber tagged DELETION whose child still carries the PLACEMENT tag of its first render: its node is removed and then appended again. With line 172 in place, `appendChild(null)` for the component throws before either happens | delete each queued fiber's node only, with `commitDeletion` at its commit target | medium (depends on line 172 being set aside), not executed | Commit.DeletedComponentStaysAsWritten | Commit.DeletionsRemoveExactly |
