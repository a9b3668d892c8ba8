/**
 * The library engine of src/j-react/core.ts: the render phase (`performUnitOfWork`
 * with its function- and host-component branches), the commit phase (`commitRoot`,
 * `commitWork`, `commitDeletion`) and the `useState` hook store.
 *
 * The module globals are the fields of one `Engine` object. The browser is the
 * append-only `log` of host calls; container nodes are supplied by the caller and
 * new host nodes are numbered from the counter `nextNode`.
 */
module Core {
  import opened Options
  import opened Elements
  import opened Dom
  import opened Fibers

  // ---------------------------------------------------------------------------
  // Component functions

  /** A component function as the engine sees it: the initial values of the `useState`
      calls it makes, in order, given its props and children; and the element it returns
      given the states those calls yield. */
  datatype ComponentDef = ComponentDef(
    initials: (Props, seq<Element>) -> seq<Value>,
    view: (Props, seq<Element>, seq<Value>) -> Element)

  /** The component functions of the program, by the id in `Component(id)`. */
  type Components = nat -> ComponentDef

  /** What the `setState` closure returned by `useState` captures: the hook it was made for. */
  datatype HookRef = HookRef(fiber: nat, index: nat)

  // ---------------------------------------------------------------------------
  // The hook store

  /** One queued action applied to a state: a function is called, a literal replaces. */
  function Apply(a: Action, s: Value): Value
  {
    match a
    case Literal(v) => v
    case Updater(f) => f(s)
  }

  /** The queue applied in order to the state `s`. */
  function Fold(q: seq<Action>, s: Value): Value
    decreases |q|
  {
    if q == [] then s else Apply(q[|q| - 1], Fold(q[..|q| - 1], s))
  }

  /** `wipFiber.alternate?.hooks?.[k]`. */
  function OldHook(fs: Arena, w: nat, k: nat): Option<Hook>
    requires w < |fs|
  {
    match fs[w].alternate
    case Some(a) => if a < |fs| && k < |fs[a].hooks| then Some(fs[a].hooks[k]) else None
    case None => None
  }

  /** The state `useState(initial)` yields: the old hook's state with its queue folded in,
      or `initial` when there is no old hook. */
  function HookState(oldHook: Option<Hook>, initial: Value): Value
  {
    match oldHook
    case Some(h) => Fold(h.queue, h.state)
    case None => initial
  }

  /** Folding a concatenation folds the first part, then the second. */
  lemma {:induction false} FoldConcat(p: seq<Action>, q: seq<Action>, s: Value)
    ensures Fold(p + q, s) == Fold(q, Fold(p, s))
    decreases |q|
  {
    if q != [] {
      var q' := q[..|q| - 1];
      assert (p + q)[..|p + q| - 1] == p + q';
      assert (p + q)[|p + q| - 1] == q[|q| - 1];
      FoldConcat(p, q', s);
      calc {
        Fold(p + q, s);
        Apply(q[|q| - 1], Fold(p + q', s));
        Apply(q[|q| - 1], Fold(q', Fold(p, s)));
        Fold(q, Fold(p, s));
      }
    } else {
      assert p + q == p;
    }
  }

  /** A literal in the queue replaces the state: what was queued before it does not matter. */
  lemma LiteralResets(q: seq<Action>, i: nat, s: Value, t: Value)
    requires i < |q| && q[i].Literal?
    ensures Fold(q, s) == Fold(q, t) == Fold(q[i + 1..], q[i].value)
  {
    assert q == q[..i + 1] + q[i + 1..];
    assert q[..i + 1][..i] == q[..i];
    FoldConcat(q[..i + 1], q[i + 1..], s);
    FoldConcat(q[..i + 1], q[i + 1..], t);
  }

  /** Queueing an action on a hook makes the next `useState` that reads it yield the
      action applied to what it would have yielded before. */
  lemma EnqueueThenRead(h: Hook, a: Action, initial: Value)
    ensures HookState(Some(Hook(h.state, h.queue + [a])), initial) == Apply(a, HookState(Some(h), initial))
  {
    assert (h.queue + [a])[..|h.queue + [a]| - 1] == h.queue;
  }

  /** The hook `useState` pushes, read back by the next render, yields its own state. */
  lemma FreshHookReadsBack(s: Value, initial: Value)
    ensures HookState(Some(Hook(s, [])), initial) == s
  {
  }

  /** The states the `useState` calls of a component render yield, in call order. The
      ensures only expose this definition pointwise, for the lemmas below. */
  function RenderedStates(fs: Arena, w: nat, initials: seq<Value>): (r: seq<Value>)
    requires w < |fs|
    ensures |r| == |initials|
    ensures forall k :: 0 <= k < |initials| ==> r[k] == HookState(OldHook(fs, w, k), initials[k])
  {
    seq(|initials|, k requires 0 <= k < |initials| => HookState(OldHook(fs, w, k), initials[k]))
  }

  /** The hooks a component render leaves on its fiber: one per call, with an empty queue.
      The ensures only expose this definition pointwise. */
  function RenderedHooks(fs: Arena, w: nat, initials: seq<Value>): (r: seq<Hook>)
    requires w < |fs|
    ensures |r| == |initials|
    ensures forall k :: 0 <= k < |initials| ==> r[k] == Hook(RenderedStates(fs, w, initials)[k], [])
  {
    seq(|initials|, k requires 0 <= k < |initials| => Hook(RenderedStates(fs, w, initials)[k], []))
  }

  /** The arena once `setState(action)` of the hook `ref` has pushed the action onto that
      hook's queue. */
  function Enqueue(fs: Arena, ref: HookRef, a: Action): (r: Arena)
    requires ref.fiber < |fs| && ref.index < |fs[ref.fiber].hooks|
    ensures |r| == |fs| && |r[ref.fiber].hooks| == |fs[ref.fiber].hooks|
    ensures forall j :: 0 <= j < |fs| && j != ref.fiber ==> r[j] == fs[j]
  {
    var h := fs[ref.fiber].hooks[ref.index];
    fs[ref.fiber := fs[ref.fiber].(hooks := fs[ref.fiber].hooks[ref.index := Hook(h.state, h.queue + [a])])]
  }

  /** After the enqueue, a render whose alternate is `ref.fiber` reads hook `ref.index`
      with the action applied; every other old hook any render reads is unchanged. */
  lemma OldHookAfterEnqueue(fs: Arena, ref: HookRef, a: Action, w: nat, k: nat, initial: Value)
    requires ref.fiber < |fs| && ref.index < |fs[ref.fiber].hooks| && w < |fs|
    ensures var r := Enqueue(fs, ref, a);
            var hit := fs[w].alternate == Some(ref.fiber) && k == ref.index;
            (hit ==> HookState(OldHook(r, w, k), initial) == Apply(a, HookState(OldHook(fs, w, k), initial))) &&
            (!hit ==> OldHook(r, w, k) == OldHook(fs, w, k))
  {
    if fs[w].alternate == Some(ref.fiber) && k == ref.index {
      EnqueueThenRead(fs[ref.fiber].hooks[ref.index], a, initial);
    }
  }

  /** State isolation: queueing an action on hook `j` of fiber `f` changes, in a later
      render whose alternate is `f`, the state of the `j`-th `useState` call alone, which
      yields the action applied to what it would have yielded; a render whose alternate is
      another fiber yields the same states as before. */
  lemma QueuedActionIsolated(fs: Arena, ref: HookRef, a: Action, w: nat, initials: seq<Value>)
    requires ref.fiber < |fs| && ref.index < |fs[ref.fiber].hooks| && w < |fs|
    ensures var before := RenderedStates(fs, w, initials);
            var after := RenderedStates(Enqueue(fs, ref, a), w, initials);
            |after| == |before| &&
            (fs[w].alternate == Some(ref.fiber) && ref.index < |initials| ==>
               after[ref.index] == Apply(a, before[ref.index])) &&
            (forall k :: 0 <= k < |initials| && (k != ref.index || fs[w].alternate != Some(ref.fiber)) ==>
               after[k] == before[k])
  {
    var r := Enqueue(fs, ref, a);
    forall k | 0 <= k < |initials|
      ensures var hit := fs[w].alternate == Some(ref.fiber) && k == ref.index;
              (hit ==> RenderedStates(r, w, initials)[k] == Apply(a, RenderedStates(fs, w, initials)[k])) &&
              (!hit ==> RenderedStates(r, w, initials)[k] == RenderedStates(fs, w, initials)[k])
    {
      OldHookAfterEnqueue(fs, ref, a, w, k, initials[k]);
    }
  }

  // ---------------------------------------------------------------------------
  // The commit phase

  /** No fiber on `path` has a dom node. */
  predicate NoDomOn(fs: Arena, path: seq<nat>)
  {
    forall k :: 0 <= k < |path| ==> path[k] < |fs| && fs[path[k]].dom.None?
  }

  /** `h` is the first fiber on `path` that has a dom node. */
  predicate FirstDomOn(fs: Arena, path: seq<nat>, h: nat)
  {
    exists k :: 0 <= k < |path| && path[k] == h && h < |fs| && fs[h].dom.Some? && NoDomOn(fs, path[..k])
  }

  /** The `parentFiber` loop of `commitWork`: the nearest fiber from `p` upward that owns a
      dom node. (The guards never fail in a valid arena.) */
  function HostParent(fs: Arena, p: Option<nat>): (h: Option<nat>)
    ensures h.Some? ==> h.value < |fs| && fs[h.value].dom.Some?
    decreases if p.Some? then p.value + 1 else 0
  {
    if p.None? || p.value >= |fs| then None
    else if fs[p.value].dom.Some? then p
    else match fs[p.value].parent
      case Some(q) => if q < p.value then HostParent(fs, Some(q)) else None
      case None => None
  }

  /** The fiber `f` and its first child, grandchild, ...: the only fibers `commitDeletion`
      visits. (The guards never fail in a valid arena.) */
  function FirstChildPath(fs: Arena, f: nat): (path: seq<nat>)
    requires f < |fs|
    ensures |path| > 0 && path[0] == f
    ensures forall k :: 0 <= k < |path| ==> path[k] < |fs|
    decreases |fs| - f
  {
    match fs[f].child
    case Some(c) => if f < c < |fs| then [f] + FirstChildPath(fs, c) else [f]
    case None => [f]
  }

  /** `commitDeletion(fiber, parentDom)`: remove the fiber's node, or, if it has none, that
      of its first child, recursively. */
  function DeletionOps(fs: Arena, f: nat, parentDom: NodeId): seq<HostOp>
    requires f < |fs|
    decreases |fs| - f
  {
    if fs[f].dom.Some? then [RemoveChild(parentDom, fs[f].dom.value)]
    else match fs[f].child
      case Some(c) => if f < c < |fs| then DeletionOps(fs, c, parentDom) else []
      case None => []
  }

  /** The host calls of the fiber's own effect in `commitWork`, given the parent node. */
  function EffectOps(fs: Arena, f: nat, parentDom: NodeId): seq<HostOp>
    requires f < |fs|
  {
    var x := fs[f];
    if x.effectTag == Some(Placement) && x.dom.Some? then [AppendChild(parentDom, x.dom.value)]
    else if x.effectTag == Some(Update) && x.dom.Some? then UpdateDom(x.dom.value, PrevProps(fs, f), x.props)
    else []
  }

  /** `commitWork(fiber)`: the host calls it makes, in order. */
  function CommitOps(fs: Arena, f: Option<nat>): seq<HostOp>
    decreases if f.Some? && f.value < |fs| then |fs| - f.value else 0, 1
  {
    if f.None? || f.value >= |fs| then [] else CommitFiber(fs, f.value)
  }

  /** `commitWork` on the fiber `f` of the arena: nothing without a host ancestor; a
      deletion is `commitDeletion` alone; any other fiber makes its own effect, then
      commits its child and its sibling. */
  function CommitFiber(fs: Arena, f: nat): seq<HostOp>
    requires f < |fs|
    decreases |fs| - f, 0
  {
    var x := fs[f];
    var hp := HostParent(fs, x.parent);
    if hp.None? then []
    else
      var parentDom := fs[hp.value].dom.value;
      if x.effectTag == Some(Deletion) then DeletionOps(fs, f, parentDom)
      else
        EffectOps(fs, f, parentDom) +
        (if x.child.Some? && f < x.child.value then CommitOps(fs, x.child) else []) +
        (if x.sibling.Some? && f < x.sibling.value then CommitOps(fs, x.sibling) else [])
  }

  lemma SeqAssoc4<T>(a: seq<T>, b: seq<T>, c: seq<T>, d: seq<T>)
    ensures a + b + c + d == a + (b + c + d)
  {
  }

  /** `commitWork` on a live fiber under a host node: its own effect, then its child's
      subtree, then its sibling's. */
  lemma CommitOpsOfLive(fs: Arena, f: nat, parentDom: NodeId)
    requires Valid(fs) && f < |fs| && fs[f].effectTag != Some(Deletion)
    requires HostParent(fs, fs[f].parent).Some?
    requires parentDom == fs[HostParent(fs, fs[f].parent).value].dom.value
    ensures CommitOps(fs, Some(f)) ==
            EffectOps(fs, f, parentDom) + CommitOps(fs, fs[f].child) + CommitOps(fs, fs[f].sibling)
  {
    assert LinksOk(fs, f);
  }

  /** Re-rendering the same tree with the same props makes no host call for the new
      fibers' own effects: each is an Update whose diff against its alternate is empty. */
  lemma SameTreeRerenderIsSilent(fs: Arena, w: nat, es: seq<Element>, i: nat, parentDom: NodeId)
    requires w < |fs| && i < |es| && |es| == |OldChain(fs, w)|
    requires forall k :: 0 <= k < |es| ==> SameType(fs, es, OldChain(fs, w), k)
    requires es[i].props == fs[OldChain(fs, w)[i]].props
    ensures |ReconciledFibers(fs, w, es)| == |fs| + |es|
    ensures EffectOps(ReconciledFibers(fs, w, es), |fs| + i, parentDom) == []
  {
    var r := ReconciledFibers(fs, w, es);
    SameShapeRerender(fs, [], w, es);
    ReconciledNew(fs, w, es, i);
    if r[|fs| + i].dom.Some? {
      IdenticalPropsNoMutation(r[|fs| + i].dom.value, es[i].props);
    }
  }

  /** `deletions.forEach(commitWork)`. */
  function DeletionsOps(fs: Arena, ds: seq<nat>): seq<HostOp>
  {
    if ds == [] then [] else DeletionsOps(fs, ds[..|ds| - 1]) + CommitOps(fs, Some(ds[|ds| - 1]))
  }

  /** One more deletion commits after the earlier ones. */
  lemma DeletionsOpsSnoc(fs: Arena, ds: seq<nat>, i: nat)
    requires i < |ds|
    ensures DeletionsOps(fs, ds[..i + 1]) == DeletionsOps(fs, ds[..i]) + CommitOps(fs, Some(ds[i]))
  {
    assert ds[..i + 1][..i] == ds[..i];
  }

  /** The nearest host ancestor is the first fiber on the parent path that owns a dom node;
      when there is none, no fiber on that path owns one. */
  lemma {:induction false} HostParentIsNearest(fs: Arena, p: Option<nat>)
    requires Valid(fs) && InArena(fs, p)
    ensures HostParent(fs, p).None? ==> NoDomOn(fs, Path(fs, p))
    ensures HostParent(fs, p).Some? ==> FirstDomOn(fs, Path(fs, p), HostParent(fs, p).value)
    decreases if p.Some? then p.value + 1 else 0
  {
    if p.Some? {
      var v := p.value;
      assert LinksOk(fs, v);
      var path := Path(fs, p);
      if fs[v].dom.Some? {
        assert path[0] == v && NoDomOn(fs, path[..0]);
      } else if fs[v].parent.Some? {
        var q := fs[v].parent;
        HostParentIsNearest(fs, q);
        assert path == [v] + Path(fs, q);
        if HostParent(fs, q).None? {
          NoDomOnCons(fs, v, Path(fs, q));
        } else {
          FirstDomOnCons(fs, v, Path(fs, q), HostParent(fs, q).value);
        }
      } else {
        assert path == [v];
      }
    }
  }

  lemma NoDomOnCons(fs: Arena, v: nat, rest: seq<nat>)
    requires v < |fs| && fs[v].dom.None? && NoDomOn(fs, rest)
    ensures NoDomOn(fs, [v] + rest)
  {
    var path := [v] + rest;
    forall k | 0 <= k < |path| ensures path[k] < |fs| && fs[path[k]].dom.None? {
      if k > 0 { assert path[k] == rest[k - 1]; }
    }
  }

  lemma FirstDomOnCons(fs: Arena, v: nat, rest: seq<nat>, h: nat)
    requires v < |fs| && fs[v].dom.None? && FirstDomOn(fs, rest, h)
    ensures FirstDomOn(fs, [v] + rest, h)
  {
    var path := [v] + rest;
    var k :| 0 <= k < |rest| && rest[k] == h && h < |fs| && fs[h].dom.Some? && NoDomOn(fs, rest[..k]);
    assert path[k + 1] == rest[k];
    assert path[..k + 1] == [v] + rest[..k];
    NoDomOnCons(fs, v, rest[..k]);
  }

  /** `commitDeletion` removes at most one node from the parent: the node of the first fiber
      on the first-child path that owns one. It never visits a sibling. */
  lemma {:induction false} DeletionRemovesNearestNode(fs: Arena, f: nat, parentDom: NodeId)
    requires f < |fs|
    ensures var ops := DeletionOps(fs, f, parentDom);
            (ops == [] <==> NoDomOn(fs, FirstChildPath(fs, f))) &&
            (ops != [] ==> exists g: nat :: FirstDomOn(fs, FirstChildPath(fs, f), g) &&
                                       ops == [RemoveChild(parentDom, fs[g].dom.value)])
    decreases |fs| - f
  {
    var path := FirstChildPath(fs, f);
    if fs[f].dom.Some? {
      assert path[0] == f && NoDomOn(fs, path[..0]);
      assert FirstDomOn(fs, path, f);
    } else if fs[f].child.Some? && f < fs[f].child.value < |fs| {
      var c := fs[f].child.value;
      DeletionRemovesNearestNode(fs, c, parentDom);
      assert path == [f] + FirstChildPath(fs, c);
      if NoDomOn(fs, FirstChildPath(fs, c)) {
        NoDomOnCons(fs, f, FirstChildPath(fs, c));
      } else {
        var g: nat :| FirstDomOn(fs, FirstChildPath(fs, c), g) &&
                 DeletionOps(fs, c, parentDom) == [RemoveChild(parentDom, fs[g].dom.value)];
        FirstDomOnCons(fs, f, FirstChildPath(fs, c), g);
      }
    } else {
      assert path == [f];
    }
  }

  /** With no fiber owning a dom node above it, `commitWork` does nothing at all, not even
      for the fiber's children and siblings. */
  lemma CommitWithoutHostIsSilent(fs: Arena, f: nat)
    requires Valid(fs) && f < |fs|
    requires NoDomOn(fs, Path(fs, fs[f].parent))
    ensures CommitOps(fs, Some(f)) == []
  {
    assert LinksOk(fs, f);
    HostParentIsNearest(fs, fs[f].parent);
  }

  /** A fiber tagged Deletion commits as `commitDeletion` alone: at most one removal from
      its host parent, nothing from its children's or siblings' effects. */
  lemma CommitOfDeletion(fs: Arena, f: nat)
    requires f < |fs| && fs[f].effectTag == Some(Deletion)
    requires HostParent(fs, fs[f].parent).Some?
    ensures var parentDom := fs[HostParent(fs, fs[f].parent).value].dom.value;
            CommitOps(fs, Some(f)) == DeletionOps(fs, f, parentDom) && |CommitOps(fs, Some(f))| <= 1
  {
    var parentDom := fs[HostParent(fs, fs[f].parent).value].dom.value;
    DeletionRemovesNearestNode(fs, f, parentDom);
  }

  /** The commit phase makes no node: every call it makes attaches, detaches or updates one. */
  lemma {:induction false} CommitCreatesNothing(fs: Arena, f: Option<nat>, op: HostOp)
    requires op in CommitOps(fs, f)
    ensures !op.CreateElementNode? && !op.CreateTextNode?
    decreases if f.Some? && f.value < |fs| then |fs| - f.value else 0
  {
    var x := fs[f.value];
    var hp := HostParent(fs, x.parent);
    var parentDom := fs[hp.value].dom.value;
    if x.effectTag == Some(Deletion) {
      DeletionOnlyRemoves(fs, f.value, parentDom, op);
    } else if op in EffectOps(fs, f.value, parentDom) {
      if x.effectTag == Some(Update) && x.dom.Some? && !(x.effectTag == Some(Placement)) {
        ChildrenNeverApplied(x.dom.value, PrevProps(fs, f.value), x.props, op);
      }
    } else if x.child.Some? && f.value < x.child.value && op in CommitOps(fs, x.child) {
      CommitCreatesNothing(fs, x.child, op);
    } else {
      CommitCreatesNothing(fs, x.sibling, op);
    }
  }

  lemma {:induction false} DeletionOnlyRemoves(fs: Arena, f: nat, parentDom: NodeId, op: HostOp)
    requires f < |fs| && op in DeletionOps(fs, f, parentDom)
    ensures op.RemoveChild? && op.parent == parentDom
    decreases |fs| - f
  {
    if fs[f].dom.None? {
      DeletionOnlyRemoves(fs, fs[f].child.value, parentDom, op);
    }
  }

  // ---------------------------------------------------------------------------
  // The render phase

  /** `typeof fiber.type === "function"`. */
  predicate IsComponent(fs: Arena, f: nat)
    requires f < |fs|
  {
    fs[f].kind.Some? && fs[f].kind.value.Component?
  }

  /** The `useState` initial values of the component render of fiber `f`. */
  function Initials(app: Components, fs: Arena, f: nat): seq<Value>
    requires f < |fs| && IsComponent(fs, f)
  {
    app(fs[f].kind.value.fn).initials(fs[f].props, fs[f].children)
  }

  /** The arena once the component of fiber `f` has run: its hooks are those the render made. */
  function WithHooks(app: Components, fs: Arena, f: nat): Arena
    requires f < |fs| && IsComponent(fs, f)
  {
    fs[f := fs[f].(hooks := RenderedHooks(fs, f, Initials(app, fs, f)))]
  }

  /** The single element the component of fiber `f` returns. */
  function Rendered(app: Components, fs: Arena, f: nat): Element
    requires f < |fs| && IsComponent(fs, f)
  {
    app(fs[f].kind.value.fn).view(fs[f].props, fs[f].children, RenderedStates(fs, f, Initials(app, fs, f)))
  }

  /** Replacing the hooks of fiber `w` does not change the old hooks it reads, which
      belong to its alternate, an earlier fiber. */
  lemma OldHookIgnoresOwnHooks(fs: Arena, w: nat, hs: seq<Hook>, k: nat)
    requires w < |fs| && LinksOk(fs, w)
    ensures OldHook(fs[w := fs[w].(hooks := hs)], w, k) == OldHook(fs, w, k)
  {
  }

  /** One more `useState` call extends the rendered states and hooks by one. */
  lemma RenderedSnoc(fs: Arena, w: nat, initials: seq<Value>, i: nat)
    requires w < |fs| && i < |initials|
    ensures RenderedStates(fs, w, initials[..i + 1]) ==
            RenderedStates(fs, w, initials[..i]) + [HookState(OldHook(fs, w, i), initials[i])]
    ensures RenderedHooks(fs, w, initials[..i + 1]) ==
            RenderedHooks(fs, w, initials[..i]) + [Hook(HookState(OldHook(fs, w, i), initials[i]), [])]
  {
    var p, q := initials[..i], initials[..i + 1];
    assert forall k :: 0 <= k < i ==> q[k] == p[k];
    assert RenderedStates(fs, w, q) == RenderedStates(fs, w, p) + [HookState(OldHook(fs, w, i), initials[i])];
  }

  /** The module globals of src/j-react/core.ts, the fibers they refer to, and the host. */
  class Engine {
    /** The component functions, by id. */
    const app: Components
    var fibers: Arena
    var wipRoot: Option<nat>
    var currentRoot: Option<nat>
    var deletions: seq<nat>
    var nextUnitOfWork: Option<nat>
    var wipFiber: Option<nat>
    var hookIndex: nat
    /** The host calls made so far. */
    var log: seq<HostOp>
    /** The number the next created host node gets. */
    var nextNode: NodeId

    /** Every global fiber reference points into a well-linked arena. */
    ghost predicate Valid()
      reads this
    {
      Fibers.Valid(fibers) &&
      InArena(fibers, wipRoot) && InArena(fibers, currentRoot) &&
      InArena(fibers, nextUnitOfWork) && InArena(fibers, wipFiber) &&
      forall i :: 0 <= i < |deletions| ==> deletions[i] < |fibers|
    }

    /** The state at module load: no roots, no work, nothing drawn. */
    constructor (app: Components)
      ensures Valid()
      ensures this.app == app && fibers == [] && log == [] && nextNode == 0
      ensures wipRoot.None? && currentRoot.None? && nextUnitOfWork.None? && wipFiber.None?
      ensures deletions == [] && hookIndex == 0
    {
      this.app := app;
      fibers, log, nextNode := [], [], 0;
      wipRoot, currentRoot, nextUnitOfWork, wipFiber := None, None, None, None;
      deletions, hookIndex := [], 0;
    }

    /** `render(element, container)`: a new root owning the container node, with the
        element as its only child and the current root as its alternate, becomes both the
        work-in-progress root and the next unit of work; pending deletions are dropped. */
    method Render(element: Element, container: NodeId)
      requires Valid()
      modifies this`fibers, this`wipRoot, this`deletions, this`nextUnitOfWork
      ensures Valid()
      ensures fibers == old(fibers) + [Fiber(None, [], [element], Some(container), None, None, None, currentRoot, None, [])]
      ensures wipRoot == Some(|old(fibers)|) && nextUnitOfWork == wipRoot && deletions == []
    {
      var root := Fiber(None, [], [element], Some(container), None, None, None, currentRoot, None, []);
      AppendKeepsValid(fibers, root);
      wipRoot := Some(|fibers|);
      fibers := fibers + [root];
      deletions := [];
      nextUnitOfWork := wipRoot;
    }

    // -------------------------------------------------------------------------
    // Commit

    /** The `parentFiber` loop of `commitWork`. */
    static method FindHostParent(fs: Arena, fiber: nat) returns (parentFiber: Option<nat>)
      requires Fibers.Valid(fs) && fiber < |fs|
      ensures parentFiber == HostParent(fs, fs[fiber].parent)
    {
      assert LinksOk(fs, fiber);
      parentFiber := fs[fiber].parent;
      while parentFiber.Some? && fs[parentFiber.value].dom.None?
        invariant InArena(fs, parentFiber)
        invariant HostParent(fs, parentFiber) == HostParent(fs, fs[fiber].parent)
        decreases if parentFiber.Some? then parentFiber.value + 1 else 0
      {
        assert LinksOk(fs, parentFiber.value);
        parentFiber := fs[parentFiber.value].parent;
      }
    }

    /** `commitDeletion(fiber, parentDom)` over the fibers `fs`. */
    method CommitDeletion(fs: Arena, fiber: nat, parentDom: NodeId)
      requires Fibers.Valid(fs) && fiber < |fs|
      modifies this`log
      ensures log == old(log) + DeletionOps(fs, fiber, parentDom)
      decreases |fs| - fiber
    {
      assert LinksOk(fs, fiber);
      if fs[fiber].dom.Some? {
        log := log + [RemoveChild(parentDom, fs[fiber].dom.value)];
      } else if fs[fiber].child.Some? {
        CommitDeletion(fs, fs[fiber].child.value, parentDom);
      }
    }

    /** The effect of one fiber in `commitWork`: append a placed node, or diff an updated one. */
    method CommitEffect(fs: Arena, fiber: nat, parentDom: NodeId)
      requires fiber < |fs|
      modifies this`log
      ensures log == old(log) + EffectOps(fs, fiber, parentDom)
    {
      var x := fs[fiber];
      if x.effectTag == Some(Placement) && x.dom.Some? {
        log := log + [AppendChild(parentDom, x.dom.value)];
      } else if x.effectTag == Some(Update) && x.dom.Some? {
        log := log + UpdateDom(x.dom.value, PrevProps(fs, fiber), x.props);
      }
    }

    /** `commitWork(fiber)` over the fibers `fs`. */
    method CommitWork(fs: Arena, fiber: Option<nat>)
      requires Fibers.Valid(fs) && InArena(fs, fiber)
      modifies this`log
      ensures log == old(log) + CommitOps(fs, fiber)
      decreases if fiber.Some? then |fs| - fiber.value else 0
    {
      if fiber.None? {
        return;
      }
      var f := fiber.value;
      var parentFiber := FindHostParent(fs, f);
      if parentFiber.None? {
        return;
      }
      var parentDom := fs[parentFiber.value].dom.value;
      assert LinksOk(fs, f);
      if fs[f].effectTag == Some(Deletion) {
        CommitDeletion(fs, f, parentDom);
        return;
      }
      CommitOpsOfLive(fs, f, parentDom);
      ghost var l0 := log;
      CommitEffect(fs, f, parentDom);
      ghost var l1 := log;
      CommitWork(fs, fs[f].child);
      ghost var l2 := log;
      CommitWork(fs, fs[f].sibling);
      SeqAssoc4(l0, EffectOps(fs, f, parentDom), CommitOps(fs, fs[f].child), CommitOps(fs, fs[f].sibling));
    }

    /** `deletions.forEach(commitWork)` over the fibers `fs`. */
    method CommitDeletions(fs: Arena, ds: seq<nat>)
      requires Fibers.Valid(fs) && forall i :: 0 <= i < |ds| ==> ds[i] < |fs|
      modifies this`log
      ensures log == old(log) + DeletionsOps(fs, ds)
    {
      var i := 0;
      while i < |ds|
        invariant i <= |ds|
        invariant log == old(log) + DeletionsOps(fs, ds[..i])
      {
        DeletionsOpsSnoc(fs, ds, i);
        CommitWork(fs, Some(ds[i]));
        i := i + 1;
      }
      assert ds[..i] == ds;
    }

    /** `commitRoot()`: the queued deletions first, in order, then the work-in-progress tree
        from its first child; the work-in-progress root becomes the current root. Without a
        work-in-progress root nothing happens. */
    method CommitRoot()
      requires Valid()
      modifies this`log, this`currentRoot, this`wipRoot
      ensures Valid()
      ensures old(wipRoot).None? ==> log == old(log) && currentRoot == old(currentRoot) && wipRoot.None?
      ensures old(wipRoot).Some? ==>
                log == old(log) + DeletionsOps(fibers, deletions) + CommitOps(fibers, fibers[old(wipRoot).value].child) &&
                currentRoot == old(wipRoot) && wipRoot.None?
    {
      if wipRoot.None? {
        return;
      }
      var fs := fibers;
      CommitDeletions(fs, deletions);
      assert LinksOk(fs, wipRoot.value);
      CommitWork(fs, fs[wipRoot.value].child);
      currentRoot := wipRoot;
      wipRoot := None;
    }
  
    // -------------------------------------------------------------------------
    // Hooks

    /** `useState(initial)`, called while the component of `wipFiber` runs: the state is the
        old hook's state with its queue folded in (or `initial` without an old hook); one hook
        holding that state and an empty queue is pushed, and `hookIndex` advances. The
        returned reference is what the `setState` closure captures. */
    method UseState(initial: Value) returns (state: Value, setState: HookRef)
      requires Valid() && wipFiber.Some?
      modifies this`fibers, this`hookIndex
      ensures Valid()
      ensures var w := wipFiber.value;
              state == HookState(OldHook(old(fibers), w, old(hookIndex)), initial) &&
              fibers == old(fibers)[w := old(fibers)[w].(hooks := old(fibers)[w].hooks + [Hook(state, [])])] &&
              setState == HookRef(w, |old(fibers)[w].hooks|)
      ensures hookIndex == old(hookIndex) + 1
    {
      var w := wipFiber.value;
      var oldHook := OldHook(fibers, w, hookIndex);
      state := if oldHook.Some? then oldHook.value.state else initial;
      var actions := if oldHook.Some? then oldHook.value.queue else [];
      var i := 0;
      while i < |actions|
        invariant i <= |actions|
        invariant state == Fold(actions[..i], if oldHook.Some? then oldHook.value.state else initial)
      {
        assert actions[..i + 1][..i] == actions[..i];
        match actions[i] {
          case Updater(f) => state := f(state);
          case Literal(v) => state := v;
        }
        i := i + 1;
      }
      assert actions[..i] == actions;
      var hook := Hook(state, []);
      setState := HookRef(w, |fibers[w].hooks|);
      assert LinksOk(fibers, w);
      ReplaceKeepsValid(fibers, w, fibers[w].(hooks := fibers[w].hooks + [hook]));
      fibers := fibers[w := fibers[w].(hooks := fibers[w].hooks + [hook])];
      hookIndex := hookIndex + 1;
    }

    /** `setState(action)` of the hook `ref`: the action joins that hook's queue, and a new
        root copying the current root's node, props and children, with the current root as
        its alternate, becomes the work-in-progress root and the next unit of work; pending
        deletions are dropped. */
    method SetState(ref: HookRef, action: Action)
      requires Valid() && currentRoot.Some?
      requires ref.fiber < |fibers| && ref.index < |fibers[ref.fiber].hooks|
      modifies this`fibers, this`wipRoot, this`nextUnitOfWork, this`deletions
      ensures Valid()
      ensures var cur := old(fibers)[currentRoot.value];
              fibers == Enqueue(old(fibers), ref, action) + [Fiber(None, cur.props, cur.children, cur.dom, None, None, None, currentRoot, None, [])]
      ensures wipRoot == Some(|old(fibers)|) && nextUnitOfWork == wipRoot && deletions == []
    {
      var x := fibers[ref.fiber];
      var h := x.hooks[ref.index];
      assert LinksOk(fibers, ref.fiber);
      ReplaceKeepsValid(fibers, ref.fiber, x.(hooks := x.hooks[ref.index := Hook(h.state, h.queue + [action])]));
      fibers := fibers[ref.fiber := x.(hooks := x.hooks[ref.index := Hook(h.state, h.queue + [action])])];
      var cur := fibers[currentRoot.value];
      var root := Fiber(None, cur.props, cur.children, cur.dom, None, None, None, currentRoot, None, []);
      AppendKeepsValid(fibers, root);
      wipRoot := Some(|fibers|);
      fibers := fibers + [root];
      nextUnitOfWork := wipRoot;
      deletions := [];
    }
  
    // -------------------------------------------------------------------------
    // The render phase

    /** `updateHostComponent(fiber)`: a node is made if the fiber has none, then the fiber's
        children are reconciled. */
    method UpdateHostComponent(fiber: nat)
      requires Valid() && fiber < |fibers|
      modifies this`fibers, this`deletions, this`log, this`nextNode
      ensures Valid()
      ensures var fs := WithDom(old(fibers), fiber, old(nextNode));
              fibers == ReconciledFibers(fs, fiber, fs[fiber].children) &&
              deletions == ReconciledDeletions(fs, old(deletions), fiber, fs[fiber].children)
      ensures log == old(log) + DomOps(old(fibers), fiber, old(nextNode))
      ensures nextNode == if old(fibers)[fiber].dom.Some? then old(nextNode) else old(nextNode) + 1
    {
      var fs, ops, node := EnsureDom(fibers, fiber, nextNode);
      var r, d, _ := ReconcileChildren(fs, deletions, fiber, fs[fiber].children);
      fibers, deletions, log, nextNode := r, d, log + ops, node;
    }

    /** The component call of `updateFunctionComponent`: `wipFiber` and `hookIndex` are
        reset and the hooks emptied, then the component makes its `useState` calls in order
        and returns its element. */
    method RunComponent(fiber: nat) returns (child: Element)
      requires Valid() && fiber < |fibers| && IsComponent(fibers, fiber)
      modifies this`fibers, this`wipFiber, this`hookIndex
      ensures Valid()
      ensures fibers == WithHooks(app, old(fibers), fiber)
      ensures child == Rendered(app, old(fibers), fiber)
      ensures wipFiber == Some(fiber) && hookIndex == |Initials(app, old(fibers), fiber)|
    {
      ghost var fs := fibers;
      assert LinksOk(fibers, fiber);
      wipFiber := Some(fiber);
      hookIndex := 0;
      ReplaceKeepsValid(fibers, fiber, fibers[fiber].(hooks := []));
      fibers := fibers[fiber := fibers[fiber].(hooks := [])];
      var def := app(fibers[fiber].kind.value.fn);
      var initials := def.initials(fibers[fiber].props, fibers[fiber].children);
      var states: seq<Value> := [];
      var i := 0;
      assert initials[..0] == [];
      while i < |initials|
        invariant i <= |initials| && hookIndex == i && wipFiber == Some(fiber)
        invariant Valid() && |fibers| == |fs|
        invariant fibers == fs[fiber := fs[fiber].(hooks := RenderedHooks(fs, fiber, initials[..i]))]
        invariant states == RenderedStates(fs, fiber, initials[..i])
      {
        OldHookIgnoresOwnHooks(fs, fiber, RenderedHooks(fs, fiber, initials[..i]), i);
        RenderedSnoc(fs, fiber, initials, i);
        var s, _ := UseState(initials[i]);
        states := states + [s];
        i := i + 1;
      }
      assert initials[..i] == initials;
      child := def.view(fibers[fiber].props, fibers[fiber].children, states);
    }

    /** `updateFunctionComponent(fiber)`: the component runs, and the one element it returns
        is reconciled as the fiber's only child. */
    method UpdateFunctionComponent(fiber: nat)
      requires Valid() && fiber < |fibers| && IsComponent(fibers, fiber)
      modifies this`fibers, this`deletions, this`wipFiber, this`hookIndex
      ensures Valid()
      ensures var fs := WithHooks(app, old(fibers), fiber);
              var child := Rendered(app, old(fibers), fiber);
              fibers == ReconciledFibers(fs, fiber, [child]) &&
              deletions == ReconciledDeletions(fs, old(deletions), fiber, [child])
      ensures wipFiber == Some(fiber) && hookIndex == |Initials(app, old(fibers), fiber)|
    {
      var child := RunComponent(fiber);
      var r, d, _ := ReconcileChildren(fibers, deletions, fiber, [child]);
      fibers, deletions := r, d;
    }

    /** `performUnitOfWork(fiber)`: the fiber is worked on as a component or a host fiber,
        and the next unit of work is its pre-order successor in the updated fibers. */
    method PerformUnitOfWork(fiber: nat) returns (next: Option<nat>)
      requires Valid() && fiber < |fibers|
      modifies this`fibers, this`deletions, this`log, this`nextNode, this`wipFiber, this`hookIndex
      ensures Valid()
      ensures IsComponent(old(fibers), fiber) ==>
                var fs := WithHooks(app, old(fibers), fiber);
                var child := Rendered(app, old(fibers), fiber);
                fibers == ReconciledFibers(fs, fiber, [child]) &&
                deletions == ReconciledDeletions(fs, old(deletions), fiber, [child]) &&
                log == old(log) && nextNode == old(nextNode) &&
                wipFiber == Some(fiber) && hookIndex == |Initials(app, old(fibers), fiber)|
      ensures !IsComponent(old(fibers), fiber) ==>
                var fs := WithDom(old(fibers), fiber, old(nextNode));
                fibers == ReconciledFibers(fs, fiber, fs[fiber].children) &&
                deletions == ReconciledDeletions(fs, old(deletions), fiber, fs[fiber].children) &&
                log == old(log) + DomOps(old(fibers), fiber, old(nextNode)) &&
                nextNode == (if old(fibers)[fiber].dom.Some? then old(nextNode) else old(nextNode) + 1) &&
                wipFiber == old(wipFiber) && hookIndex == old(hookIndex)
      ensures fiber < |fibers| && next == PreOrderNext(fibers, fiber) && InArena(fibers, next)
    {
      if fibers[fiber].kind.Some? && fibers[fiber].kind.value.Component? {
        UpdateFunctionComponent(fiber);
      } else {
        UpdateHostComponent(fiber);
      }
      next := NextUnitOfWork(fibers, fiber);
    }
  
    // -------------------------------------------------------------------------
    // The work loop

    /** `nextUnitOfWork = performUnitOfWork(nextUnitOfWork)`: the cursor moves to the
        pre-order successor of the unit just performed. */
    method Step()
      requires Valid() && nextUnitOfWork.Some?
      modifies this`fibers, this`deletions, this`log, this`nextNode, this`wipFiber, this`hookIndex
      modifies this`nextUnitOfWork
      ensures Valid() && old(log) <= log
      ensures var f := old(nextUnitOfWork).value;
              f < |fibers| && nextUnitOfWork == PreOrderNext(fibers, f)
    {
      nextUnitOfWork := PerformUnitOfWork(nextUnitOfWork.value);
    }

    /** One idle callback, `workLoop(deadline)`. Units of work are performed while there is
        one and the deadline has not passed; `timeRemaining[k]` is the reading taken after
        unit `k`, and once the readings run out the loop yields. With no work left and a
        work-in-progress root, the root is committed. Host calls are only ever appended. */
    method WorkLoop(timeRemaining: seq<int>) returns (performed: nat)
      requires Valid()
      modifies this`fibers, this`deletions, this`log, this`nextNode, this`wipFiber, this`hookIndex
      modifies this`nextUnitOfWork, this`currentRoot, this`wipRoot
      ensures Valid()
      ensures old(log) <= log
      ensures nextUnitOfWork.None? ==> wipRoot.None?
      ensures old(nextUnitOfWork).None? ==> performed == 0
      ensures old(nextUnitOfWork).None? && old(wipRoot).None? ==> log == old(log) && fibers == old(fibers)
      ensures nextUnitOfWork.None? && old(wipRoot).Some? ==> currentRoot == old(wipRoot)
      ensures old(nextUnitOfWork).None? && old(wipRoot).Some? ==>
                log == old(log) + DeletionsOps(old(fibers), old(deletions)) +
                       CommitOps(old(fibers), old(fibers)[old(wipRoot).value].child)
      ensures performed <= |timeRemaining| + 1
      ensures forall k :: 0 <= k < performed - 1 ==> timeRemaining[k] >= 1
      ensures nextUnitOfWork.Some? ==>
                1 <= performed && (performed - 1 >= |timeRemaining| || timeRemaining[performed - 1] < 1)
    {
      performed := 0;
      var shouldYield := false;
      while nextUnitOfWork.Some? && !shouldYield
        invariant Valid() && old(log) <= log
        invariant old(nextUnitOfWork).None? ==>
                    nextUnitOfWork.None? && performed == 0 && fibers == old(fibers) && log == old(log) &&
                    deletions == old(deletions)
        invariant wipRoot == old(wipRoot)
        invariant performed <= |timeRemaining| + 1
        invariant shouldYield <==>
                    1 <= performed && (performed - 1 >= |timeRemaining| || timeRemaining[performed - 1] < 1)
        invariant forall k :: 0 <= k < performed - 1 ==> timeRemaining[k] >= 1
        decreases |timeRemaining| + 1 - performed
      {
        Step();
        shouldYield := (if performed < |timeRemaining| then timeRemaining[performed] else 0) < 1;
        performed := performed + 1;
      }
      if nextUnitOfWork.None? && wipRoot.Some? {
        CommitRoot();
      }
    }
  }
}
