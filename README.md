# j-react fiber reconciler, modelled in Dafny

j-react is a small React-like UI library written in TypeScript. This project models its
core and proves what each step promises. The core has four parts:

- **element construction**: `createElement`;
- **prop diff**: `updateDom`, in four passes;
- **render phase**: fibers are built one unit of work at a time;
  - a positional reconciler, `reconcileChildren`, tags the children;
  - a pre-order cursor picks the next unit;
- **commit phase**: the tagged tree is applied to the host DOM.

It also models the `useState` hook store, and the two earlier engines that sit beside the
library in the same repository: `src/index.js` and the prototype `src/index.ts`.

The model is built from these parts:

- **Elements** (`elements.dfy`). An element is a value.
  - Props are an ordered key/value list, in `Object.keys` order.
  - The `children` prop is kept in a field of its own. `Dom.ChildrenKeyIsInert` proves
    that the diff never reads a `children` key.
- **Host** (`dom.dfy`). The browser is replaced by an append-only log of host calls
  (`Dom.HostOp`):
  - create a node;
  - set a property;
  - add or remove a listener;
  - append or remove a child.

  `updateDom` and `createDom` are functions from props to the list of calls they make.
- **Fibers** (`fibers.dfy`). Fibers live in one arena, a `seq<Fiber>`.
  - A fiber reference is an index. `parent`, `child`, `sibling` and `alternate` are
    optional indices.
  - `Fibers.Valid` says each link points into the arena in creation order. This gives
    every walk over the links a termination measure.
  - The reconciler and the pre-order cursor are shared by all three engines. The
    reconciler's while loop is `Fibers.WalkChildren`, which `Fibers.ReconcileChildren`
    calls. Both are proved against the spec functions `ReconciledFibers` and
    `ReconciledDeletions`, and the reconciler's properties are proved as lemmas about
    those functions.
- **The library engine** (`core.dfy`). `Core.Engine` has the module globals of
  `src/j-react/core.ts` as its fields, plus the arena and the host log.
  - Every method is proved against a spec function of the old state:
    `CommitOps`, `DeletionOps`, `HookState`, `WithHooks`, `Rendered`, and the others.
  - Component functions are an oracle, `Core.Components`. For a component it gives the
    initial values of the `useState` calls it makes and the element it returns, given
    the states those calls yield.
  - The idle deadline is a list of `timeRemaining()` readings, one per unit of work.
- **The earlier engine** (`legacy.dfy`): `src/index.js`, with host elements only.
  - It shares the elements, the prop diff and the reconciler with the library.
    On trees where every fiber owns a node, its commit agrees with the library's, for
    the deletion pass as well as for the walk from the root's first child
    (`Legacy.SameCommitRootOnHostTrees`).
  - `Legacy.ComponentParentDiffers` exhibits a tree where the two commits differ.
- **The prototype** (`prototype.dfy`): `src/index.ts`. Each unit of work creates its node,
  appends it to the parent's node at once and links a fresh child chain. There is no
  diffing and no commit.

## Model

| member | source | states |
|---|---|---|
| Elements.CreateElement | src/j-react/element.ts:4-18 | the type is kept; there are as many children, in order; an element child is passed through and any other value becomes a text leaf; every input prop other than `children` is kept and the input `children` key is dropped |
| Elements.TextChildrenAreLeaves | src/j-react/element.ts:20-28 | a wrapped primitive child is a `TEXT_ELEMENT` whose only prop is `nodeValue`, holding the value, and whose children are empty |
| Elements.WithoutKey | src/j-react/element.ts:11-13 | the spread-and-override of `children`: the key is absent afterwards and every other key looks up as before |
| Elements.HasKeyIffInKeys | src/j-react/dom.ts:8 | `key in props` holds exactly when the key is among `Object.keys(props)` |
| Elements.LookupEntry | src/j-react/dom.ts:6-7 | with unique keys, `props[key]` reads the value of that key's entry |
| Dom.KeyClasses | src/j-react/dom.ts:4-5 | every key is exactly one of `children`, an event (prefix `on`) or a property |
| Dom.EventNameOfEventKey | src/j-react/dom.ts:16 | the event name is the key lower-cased with its first two characters dropped |
| Dom.RunPassMembership | src/j-react/dom.ts:12-43 | the calls of a filter/forEach pass are exactly the calls of its keys |
| Dom.RemovesStaleListeners | src/j-react/dom.ts:12-18 | pass 1 removes, with its old handler, exactly the listener of each old event key that is gone from next props or whose value differs |
| Dom.ClearsGoneProperties | src/j-react/dom.ts:21-26 | pass 2 sets to `""` exactly the old property keys absent from next props |
| Dom.SetsChangedProperties | src/j-react/dom.ts:29-34 | pass 3 assigns exactly the next property keys whose value differs from the old one (an absent old key reads `undefined`) |
| Dom.AddsNewListeners | src/j-react/dom.ts:37-43 | pass 4 adds exactly the listener of each next event key whose value differs |
| Dom.ChildrenNeverApplied | src/j-react/dom.ts:10-44 | `updateDom` makes only property and listener calls, and never assigns `children` |
| Dom.ChildrenKeyIsInert | src/j-react/dom.ts:5 | `updateDom` gives the same calls with or without a `children` entry in either props |
| Dom.IdenticalPropsNoMutation | src/j-react/dom.ts:10-44 | diffing props against themselves makes no call |
| Dom.EventRebinding | src/j-react/dom.ts:12-43 | changing only one handler makes exactly one remove of the old handler, then one add of the new one, and no property write |
| Dom.DiffAgainstEmpty | src/j-react/dom.ts:52 | diffing from `{}` only sets properties and adds listeners: passes 1 and 2 are empty |
| Dom.CreateDomAppliesAllProps | src/j-react/dom.ts:46-55 | `createDom` first creates a text or element node; it then removes nothing, sets exactly the defined property keys and adds exactly the defined event keys |
| Fibers.NextUnitOfWork | src/j-react/core.ts:89-99 | the loop returns the spec successor `PreOrderNext`, which lies in the arena |
| Fibers.NextIsPreOrder | src/j-react/core.ts:89-99 | the successor is the child if there is one; otherwise it is the sibling of the first fiber on the path fiber, parent, ... that has one, and none when no fiber on that path has one |
| Fibers.SiblingUpIsFirstOnPath | src/j-react/core.ts:92-99 | the upward sibling search finds the first sibling on the parent path, or reports that there is none |
| Fibers.ChooseNewFiber | src/j-react/core.ts:128-149 | the new fiber at a position is an Update of the old fiber when the types match, a Placement when there is an element but no match, and none past the elements |
| Fibers.RetireOldFiber | src/j-react/core.ts:150-157 | an unmatched old fiber is tagged Deletion and pushed onto the deletion list, and the walk moves to its sibling |
| Fibers.AttachNewFiber | src/j-react/core.ts:159-166 | the first new fiber becomes `wipFiber.child` and each later one the previous one's sibling |
| Fibers.RetireStep | src/j-react/core.ts:125-157 | the first part of an iteration makes the new fiber for position `index` and walks the old fiber there, leaving the arena and deletion list of `index + 1` positions walked and `index` new fibers linked |
| Fibers.AttachStep | src/j-react/core.ts:159-167 | the rest of the iteration attaches that new fiber, which brings every loop variable to its value after `index + 1` iterations |
| Fibers.ReconcileStep | src/j-react/core.ts:125-167 | one iteration takes every loop variable from its value after `index` iterations (`Fibers.WalkAt`) to its value after `index + 1` |
| Fibers.WalkChildren | src/j-react/core.ts:120-168 | with the invariant that the loop variables are those of `Fibers.WalkAt` after `index` iterations, the loop ends in the reconciled arena and deletion list after max(#elements, #old children) iterations |
| Fibers.ReconcileChildren | src/j-react/core.ts:119-169 | the reconciled arena and deletion list, after max(#elements, #old children) iterations; the arena stays well linked and grows by one fiber per element; only old fibers are queued |
| Fibers.ReconciledNew | src/j-react/core.ts:128-149 | the fiber made for each element, appended in element order |
| Fibers.ReconciledOld | src/j-react/core.ts:150-153 | what happens to each old fiber: only its Deletion tag and the child link of `wipFiber` change |
| Fibers.ReconcileClassifies | src/j-react/core.ts:128-149 | a new fiber is an Update exactly when its element has the old fiber's type; then it has that fiber's node and that fiber as alternate; otherwise it is a Placement with neither |
| Fibers.NewChain | src/j-react/core.ts:159-166 | from any new fiber on, the sibling chain runs through the remaining new fibers in order |
| Fibers.ReconcileLinksChildren | src/j-react/core.ts:159-166 | the chain from `wipFiber.child` holds exactly one fiber per element, in order, each with its element's type, props and children, `parent = wipFiber` and no child yet |
| Fibers.ReconcileNoElements | src/j-react/core.ts:124-169 | with no elements no fiber is added and `wipFiber.child` is left as it was |
| Fibers.UnmatchedIff | src/j-react/core.ts:150-153 | a fiber is queued exactly when it is the old fiber at a walked position whose element is missing or of another type |
| Fibers.UnmatchedInOrder | src/j-react/core.ts:150-153 | queued fibers appear in the order of their positions in the old chain |
| Fibers.DeletionsAppendInOrder | src/j-react/core.ts:150-153 | earlier entries of the deletion list are kept, and the new ones follow in old-chain order |
| Fibers.ReconcileDeletes | src/j-react/core.ts:150-153 | an old fiber is tagged Deletion and queued exactly when its position is unmatched; every other field of every old fiber is kept, apart from the child link of `wipFiber` |
| Fibers.OldFiberReusedOrDeleted | src/j-react/core.ts:128-153 | every old child is either the alternate of the new fiber at its position, or tagged Deletion and queued |
| Fibers.AllMatchedNoneUnmatched | src/j-react/core.ts:150-153 | with every position matched, no old fiber is queued |
| Fibers.SameShapeRerender | src/j-react/core.ts:119-169 | re-rendering the same shape (as many elements as old children, each of the same type) queues nothing, tags nothing Deletion, keeps every old fiber but the parent, and makes every new fiber an Update of the old fiber at its position, with its node and its props as the previous props |
| Fibers.ReconcilePreservesValid | src/j-react/core.ts:119-169 | reconciling keeps every link of the arena in order |
| Fibers.PositionalNoKeyMatching | src/j-react/core.ts:128 | there are no keys: with old children `div, p` and new children `p`, both old fibers are deleted and the `p` is a fresh Placement |
| Fibers.ReconciledDeletionsInArena | src/j-react/core.ts:152 | every queued fiber is a fiber of the arena |
| Fibers.EnsureDom | src/j-react/core.ts:112-114 | a node is created, from the fiber's props, only when the fiber has none; the arena stays well linked |
| Core.FoldConcat | src/j-react/core.ts:183-186 | folding a queue in two parts equals folding the first part, then the second |
| Core.LiteralResets | src/j-react/core.ts:185 | a literal in the queue, which is never a function (a function is always called on the state; `Fibers.Action` excludes a `Literal` holding a `Fn`), discards the states before it |
| Core.EnqueueThenRead | src/j-react/core.ts:183-190 | an action queued by `setState` is applied after all earlier ones on the next render |
| Core.FreshHookReadsBack | src/j-react/core.ts:177-180 | a hook with an empty queue yields its stored state |
| Core.Enqueue | src/j-react/core.ts:190 | queueing keeps the arena's size, the length of the fiber's hook list, and every other fiber |
| Core.OldHookAfterEnqueue | src/j-react/core.ts:175-190 | after the push, the hook a render reads back from that fiber at that index yields the action applied to its former state; every other old hook read is unchanged |
| Core.QueuedActionIsolated | src/j-react/core.ts:173-198 | state isolation: after `setState` on hook j of a fiber, a re-render whose alternate is that fiber sees the action applied at call j only; every other call, and every render with another alternate, yields the same states |
| Core.SameTreeRerenderIsSilent | src/j-react/core.ts:49-52 | re-rendering the same shape with the same props gives each new fiber an empty own effect: it is an Update whose diff is empty |
| Core.HostParent | src/j-react/core.ts:41-45 | the fiber found by the parent walk owns a node |
| Core.HostParentIsNearest | src/j-react/core.ts:41-45 | it is the first fiber on the parent path that owns a node, and none is found only when no fiber there owns one |
| Core.CommitOpsOfLive | src/j-react/core.ts:47-59 | a fiber that is not a deletion makes its own effect under that node, then commits its child, then its sibling |
| Core.CommitWithoutHostIsSilent | src/j-react/core.ts:45 | with no node owner above, `commitWork` makes no call, not for the child or the sibling either |
| Core.CommitOfDeletion | src/j-react/core.ts:53-56 | a deletion is `commitDeletion` alone: at most one call, and nothing for its child or sibling walk |
| Core.DeletionRemovesNearestNode | src/j-react/core.ts:62-68 | `commitDeletion` removes the node of the first fiber on the first-child path that has one, or does nothing |
| Core.DeletionOnlyRemoves | src/j-react/core.ts:62-68 | every call of `commitDeletion` removes a child of the given parent node |
| Core.CommitCreatesNothing | src/j-react/core.ts:37-68 | the commit phase never creates a node |
| Core.Engine.constructor | src/j-react/core.ts:7-14 | the globals start empty: no roots, no work, no deletions, hook index 0 |
| Core.Engine.Render | src/j-react/core.ts:17-27 | a new root over the container with `children = [element]` and `alternate = currentRoot`; it becomes `wipRoot` and the next unit of work; deletions are cleared |
| Core.Engine.FindHostParent | src/j-react/core.ts:41-45 | the loop returns `HostParent` |
| Core.Engine.CommitDeletion | src/j-react/core.ts:62-68 | appends `DeletionOps` to the log |
| Core.Engine.CommitEffect | src/j-react/core.ts:49-52 | appends the fiber's own effect: append for a Placement with a node, the prop diff against the alternate's props for an Update |
| Core.Engine.CommitWork | src/j-react/core.ts:37-60 | appends `CommitOps` of the fiber to the log |
| Core.Engine.CommitDeletions | src/j-react/core.ts:31 | commits every queued deletion, in queue order |
| Core.Engine.CommitRoot | src/j-react/core.ts:29-35 | does nothing without `wipRoot`; otherwise it commits the deletions, then `wipRoot.child`, then makes `wipRoot` the current root and clears it |
| Core.Engine.UseState | src/j-react/core.ts:173-204 | returns the folded old state (or `initial`) and a handle on the hook it pushes; exactly one hook, with an empty queue, is pushed onto `wipFiber`, and `hookIndex` grows by one |
| Core.Engine.SetState | src/j-react/core.ts:189-198 | appends the action to its own hook's queue; a new root with the current root's node and props and `alternate = currentRoot` becomes `wipRoot` and the next unit; deletions are cleared |
| Core.Engine.RunComponent | src/j-react/core.ts:103-107 | resets `wipFiber`, `hookIndex` and `hooks`, then calls the component: the fiber ends with the hooks of the render, and the result is the element the component returns |
| Core.Engine.UpdateFunctionComponent | src/j-react/core.ts:102-109 | reconciles the singleton list of the rendered element under the fiber with its new hooks |
| Core.Engine.UpdateHostComponent | src/j-react/core.ts:111-117 | creates the node only when there is none, then reconciles `props.children` |
| Core.Engine.PerformUnitOfWork | src/j-react/core.ts:84-100 | dispatches on a function type to the component branch (the rendered child reconciled, `wipFiber` = the fiber, `hookIndex` = its number of `useState` calls, no node made) and otherwise to the host branch (the node made only when absent, `nextNode` advanced exactly then, `props.children` reconciled, `wipFiber` and `hookIndex` kept), then returns the pre-order successor |
| Core.Engine.Step | src/j-react/core.ts:74 | the cursor moves to the pre-order successor of the unit just performed, and host calls are only appended |
| Core.Engine.WorkLoop | src/j-react/core.ts:71-82 | performs units while there is one and the last reading was at least 1; yields otherwise; commits when no unit is left and a root is pending |
| Legacy.DeletionNeverDescends | src/index.js:198-202 | a deletion under a parent node removes its own node if it has one, and otherwise nothing; it never visits the child |
| Legacy.CommitOpsOfLive | src/index.js:191-204 | any other fiber makes its effect under the direct parent's node, then commits its child, then its sibling |
| Legacy.PlacementNeedsParentNode | src/index.js:192-194 | a placement whose parent has no node appends nothing, yet its child and sibling are still committed |
| Legacy.SameCommitOnHostTrees | src/index.js:187-205 | on trees whose fibers all own a node, this commit of a non-root fiber makes the same calls as the library's |
| Legacy.SameDeletionsOnHostTrees | src/index.js:182 | on such trees the deletion pass makes the same calls as the library's, when every queued fiber has a parent |
| Legacy.SameCommitRootOnHostTrees | src/index.js:179-186 | on such trees the whole commit, the deletions and the walk from the root's first child, matches the library's |
| Legacy.ComponentParentDiffers | src/index.js:191 | a deleted fiber that owns no node (a component) removes nothing here, where the library's commit removes its first host descendant's node |
| Legacy.Engine.constructor | src/index.js:12-15 | the globals start empty |
| Legacy.Engine.Render | src/index.js:168-178 | a new root over the container with `children = [element]` and `alternate = currentRoot`; deletions are cleared; it is the next unit of work |
| Legacy.Engine.PerformUnitOfWork | src/index.js:101-118 | creates the node only when absent, advancing `nextNode` exactly then, reconciles `props.children`, and returns the pre-order successor |
| Legacy.Engine.CommitEffect | src/index.js:192-197 | appends only when both the fiber and its parent have a node; an update diffs against the alternate's props |
| Legacy.Engine.CommitWork | src/index.js:187-205 | appends `Legacy.CommitOps` of the fiber to the log |
| Legacy.Engine.CommitDeletions | src/index.js:182 | commits every queued deletion, in queue order |
| Legacy.Engine.CommitRoot | src/index.js:179-186 | does nothing without `wipRoot`; otherwise it commits the deletions, then `wipRoot.child`, then swaps the roots |
| Legacy.Engine.Step | src/index.js:91 | the cursor moves to the pre-order successor |
| Legacy.Engine.WorkLoop | src/index.js:88-99 | the same yield and commit discipline as the library's loop |
| Prototype.AssignAll | src/index.ts:56-61 | every call is a property assignment on the new node |
| Prototype.AssignAllExactly | src/index.ts:56-61 | exactly the non-`children` keys are assigned, with their values, event keys included |
| Prototype.CreateNodeAssignsProps | src/index.ts:50-64 | the first call creates a text node for `TEXT_ELEMENT` and an element node otherwise; after it, a property is assigned exactly when it is a prop other than `children`, with the prop's value; every later call is an assignment, so no listener is added |
| Prototype.AttachOps | src/index.ts:91-93 | an append happens exactly when the fiber has a parent and both nodes exist, and it appends the fiber's node to the parent's node |
| Prototype.Linked | src/index.ts:96-119 | linking adds one fiber per element |
| Prototype.LinkedChain | src/index.ts:96-119 | the first new fiber becomes `fiber.child`, and the chain from it holds exactly one fiber per element, in order |
| Prototype.LinkedChild | src/index.ts:102-107 | each new fiber has its element's type, props and children, `parent = fiber`, and no node |
| Prototype.LinkedKeepsValid | src/index.ts:96-119 | linking keeps the arena well linked |
| Prototype.Engine.constructor | src/index.ts:67 | no unit of work, no fibers, nothing drawn |
| Prototype.Engine.Render | src/index.ts:138-145 | the cursor is set to a new root over the container with `children = [element]` |
| Prototype.Engine.EnsureDom | src/index.ts:85-87 | a node is created only when the fiber has none |
| Prototype.Engine.AttachToParent | src/index.ts:91-93 | the fiber's node is appended to the parent's node when both exist, on every unit of work |
| Prototype.Engine.LinkChildren | src/index.ts:96-119 | the while loop ends in the `Linked` arena |
| Prototype.Engine.PerformUnitOfWork | src/index.ts:83-135 | node (made only when absent, advancing `nextNode` exactly then), then append, then child chain, then the pre-order successor |
| Prototype.Engine.Step | src/index.ts:73 | the cursor moves to the pre-order successor |
| Prototype.Engine.WorkLoop | src/index.ts:69-78 | performs units while there is one and the deadline allows; nothing is committed |

## Left out

- Scheduling. `requestIdleCallback` is left out. One call of `WorkLoop` is one idle
  callback, and `deadline.timeRemaining()` is read from the `timeRemaining` list.
- Browser calls. They are the `HostOp` records of the log, and no host tree is
  maintained. Container nodes are supplied by the caller, and new nodes are numbered
  from a counter that starts at 0. The two numberings share one id space and are not
  kept apart: a container numbered 0 and the first created node get the same id.
- JavaScript value semantics.
  - Prop values and element types are tokens compared by equality. This models `!==`
    and the loose `==` on types.
  - `typeof child === "object"` becomes a choice between an element and a primitive, so
    `null` and array children, which the source passes through unchanged, are not
    modelled.
- Component functions.
  - A component is an oracle: the initial values of its `useState` calls, and the
    element it returns.
  - So the number and order of its hooks depend on its props and children only.
  - A component cannot call `setState` during render.
- Dom.Lower: lower-cases the ASCII letters only. `toLowerCase` also folds the rest of
  Unicode.
- Fibers.PrevProps: reads `[]` when an Update fiber has no alternate. The source would
  throw there. `Fibers.Valid` rules the case out.
- Core.Engine.UseState: requires a `wipFiber`. Core.Engine.SetState requires a
  `currentRoot`. The source dereferences both with `!` and would throw without them.
- Aliasing. Fibers and hooks are arena indices and `HookRef` handles rather than shared
  objects. Fibers are never reclaimed, so a handle stays valid.
- Core.Engine.Step, Legacy.Engine.Step, Prototype.Engine.Step: the contracts state the
  new cursor, not the new arena. The arena is stated by the `PerformUnitOfWork` they
  call.
- Core.Engine.WorkLoop, Legacy.Engine.WorkLoop, Prototype.Engine.WorkLoop: the contracts
  state the yield discipline, the commit and that host calls are only appended. They do
  not state the arena after several units as one function of the old arena.
- Legacy, components. `src/index.js` has no component branch. A fiber with a component
  type goes through the host path like any other. There the source's
  `document.createElement(fiber.type)` (src/index.js:81) would throw on a function; the
  model logs `CreateElementNode(n, Some(Component(..)))` instead.
- Legacy.ComponentParentDiffers: a difference between the two commit functions, not
  between the two engines. `Legacy.Engine` gives every fiber it performs a node, so a
  deleted fiber without a node, as in that arena, does not arise there.
- Prototype, fiber fields. The `src/index.ts` fibers do not use the `alternate`,
  `effectTag` and `hooks` fields of `Fibers.Fiber`, which stay empty.
- Other files.
  - `src/j-react/types.ts` holds only type declarations; it gives the datatype shapes.
  - `src/index.tsx` and the demo code at the end of `src/index.js` are sample
    applications and are not part of this model.
