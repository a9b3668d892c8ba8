/**
 * The earlier engine of src/index.js. It renders host elements only: there is no
 * component dispatch and no hook store. Its elements, prop diff and reconciler are
 * those of the library (`Elements`, `Dom`, `Fibers`); its commit differs:
 * `commitWork` targets the node of the fiber's direct parent, without walking up,
 * and a deletion removes the fiber's own node (if it has one) and never descends.
 */
module Legacy {
  import opened Options
  import opened Elements
  import opened Dom
  import opened Fibers
  import Core

  // ---------------------------------------------------------------------------
  // The commit phase

  /** `fiber.parent?.dom`. */
  function ParentDom(fs: Arena, f: nat): Option<NodeId>
    requires f < |fs|
  {
    match fs[f].parent
    case Some(p) => if p < |fs| then fs[p].dom else None
    case None => None
  }

  /** The effect of a fiber that is not a deletion under a parent node: a placement appends
      only when both nodes exist, an update diffs against the alternate's props. */
  function EffectOps(fs: Arena, f: nat, pd: Option<NodeId>): seq<HostOp>
    requires f < |fs|
  {
    var x := fs[f];
    if x.effectTag == Some(Placement) && x.dom.Some? && pd.Some? then [AppendChild(pd.value, x.dom.value)]
    else if x.effectTag == Some(Update) && x.dom.Some? then UpdateDom(x.dom.value, PrevProps(fs, f), x.props)
    else []
  }

  /** The deletion branch: the fiber's own node, if it has one, leaves the parent node. */
  function RemoveOps(fs: Arena, f: nat, parentDom: NodeId): seq<HostOp>
    requires f < |fs|
  {
    if fs[f].dom.Some? then [RemoveChild(parentDom, fs[f].dom.value)] else []
  }

  /** `commitWork(fiber)` of src/index.js: the host calls it makes, in order. A placement
      appends only when both nodes exist; a deletion with a parent node stops there; every
      other fiber goes on to its child and its sibling. */
  function CommitOps(fs: Arena, f: Option<nat>): seq<HostOp>
    decreases if f.Some? && f.value < |fs| then |fs| - f.value else 0, 1
  {
    if f.None? || f.value >= |fs| then [] else CommitFiber(fs, f.value)
  }

  /** `commitWork` on the fiber `f` of the arena. */
  function CommitFiber(fs: Arena, f: nat): seq<HostOp>
    requires f < |fs|
    decreases |fs| - f, 0
  {
    var x := fs[f];
    var pd := ParentDom(fs, f);
    if x.effectTag == Some(Deletion) && pd.Some? then RemoveOps(fs, f, pd.value)
    else
      EffectOps(fs, f, pd) +
      (if x.child.Some? && f < x.child.value then CommitOps(fs, x.child) else []) +
      (if x.sibling.Some? && f < x.sibling.value then CommitOps(fs, x.sibling) else [])
  }

  /** `deletions.forEach(commitWork)`. */
  function DeletionsOps(fs: Arena, ds: seq<nat>): seq<HostOp>
  {
    if ds == [] then [] else DeletionsOps(fs, ds[..|ds| - 1]) + CommitOps(fs, Some(ds[|ds| - 1]))
  }

  /** One more deletion commits after the earlier ones. (The same statement as
      `Core.DeletionsOpsSnoc`, about this engine's `DeletionsOps`.) */
  lemma DeletionsOpsSnoc(fs: Arena, ds: seq<nat>, i: nat)
    requires i < |ds|
    ensures DeletionsOps(fs, ds[..i + 1]) == DeletionsOps(fs, ds[..i]) + CommitOps(fs, Some(ds[i]))
  {
    assert ds[..i + 1][..i] == ds[..i];
  }

  /** A deleted fiber under a parent node costs at most the removal of its own node: its
      child and its sibling are not visited. */
  lemma DeletionNeverDescends(fs: Arena, f: nat)
    requires f < |fs| && fs[f].effectTag == Some(Deletion) && ParentDom(fs, f).Some?
    ensures CommitOps(fs, Some(f)) ==
            if fs[f].dom.Some? then [RemoveChild(ParentDom(fs, f).value, fs[f].dom.value)] else []
    ensures |CommitOps(fs, Some(f))| <= 1
  {
  }

  /** `commitWork` on a fiber that is not a deletion under a parent node: its own effect,
      then its child's subtree, then its sibling's. */
  lemma CommitOpsOfLive(fs: Arena, f: nat)
    requires f < |fs| && LinksOk(fs, f)
    requires !(fs[f].effectTag == Some(Deletion) && ParentDom(fs, f).Some?)
    ensures CommitOps(fs, Some(f)) ==
            EffectOps(fs, f, ParentDom(fs, f)) + CommitOps(fs, fs[f].child) + CommitOps(fs, fs[f].sibling)
  {
  }

  /** A placed fiber whose parent has no node appends nothing, but its child and sibling
      are still committed. */
  lemma PlacementNeedsParentNode(fs: Arena, f: nat)
    requires Fibers.Valid(fs) && f < |fs| && fs[f].effectTag == Some(Placement) && ParentDom(fs, f).None?
    ensures CommitOps(fs, Some(f)) == CommitOps(fs, fs[f].child) + CommitOps(fs, fs[f].sibling)
  {
    assert LinksOk(fs, f);
    CommitOpsOfLive(fs, f);
  }

  /** Every fiber owns a node, and every fiber some link points at as a child or a
      sibling has a parent. Only roots lack a parent, and no link points at a root. */
  ghost predicate HostTree(fs: Arena)
  {
    (forall i :: 0 <= i < |fs| ==> fs[i].dom.Some?) &&
    (forall i :: 0 <= i < |fs| && fs[i].child.Some? && fs[i].child.value < |fs| ==>
       fs[fs[i].child.value].parent.Some?) &&
    (forall i :: 0 <= i < |fs| && fs[i].sibling.Some? && fs[i].sibling.value < |fs| ==>
       fs[fs[i].sibling.value].parent.Some?)
  }

  /** On a tree of host fibers that all own their nodes, resolving the direct parent's node
      and walking up to the nearest node agree, so the two commits of a fiber below a root
      make the same calls. */
  lemma {:induction false} SameCommitOnHostTrees(fs: Arena, f: Option<nat>)
    requires Fibers.Valid(fs) && HostTree(fs) && InArena(fs, f)
    requires f.Some? ==> fs[f.value].parent.Some?
    ensures CommitOps(fs, f) == Core.CommitOps(fs, f)
    decreases if f.Some? then |fs| - f.value else 0
  {
    if f.Some? {
      var g := f.value;
      var x := fs[g];
      assert LinksOk(fs, g);
      var p := x.parent.value;
      assert fs[p].dom.Some?;
      assert Core.HostParent(fs, x.parent) == Some(p);
      assert ParentDom(fs, g) == fs[p].dom;
      if x.effectTag != Some(Deletion) {
        SameCommitOnHostTrees(fs, x.child);
        SameCommitOnHostTrees(fs, x.sibling);
      }
    }
  }

  /** So the deletion pass of `commitRoot` agrees too, when every queued fiber has a
      parent (the reconciler queues only children). */
  lemma {:induction false} SameDeletionsOnHostTrees(fs: Arena, ds: seq<nat>)
    requires Fibers.Valid(fs) && HostTree(fs)
    requires forall i :: 0 <= i < |ds| ==> ds[i] < |fs| && fs[ds[i]].parent.Some?
    ensures DeletionsOps(fs, ds) == Core.DeletionsOps(fs, ds)
    decreases |ds|
  {
    if ds != [] {
      SameDeletionsOnHostTrees(fs, ds[..|ds| - 1]);
      SameCommitOnHostTrees(fs, Some(ds[|ds| - 1]));
    }
  }

  /** And so does the whole of `commitRoot`: the deletions, then the walk from the root's
      first child. */
  lemma SameCommitRootOnHostTrees(fs: Arena, ds: seq<nat>, root: nat)
    requires Fibers.Valid(fs) && HostTree(fs) && root < |fs|
    requires forall i :: 0 <= i < |ds| ==> ds[i] < |fs| && fs[ds[i]].parent.Some?
    ensures DeletionsOps(fs, ds) + CommitOps(fs, fs[root].child) ==
            Core.DeletionsOps(fs, ds) + Core.CommitOps(fs, fs[root].child)
  {
    assert LinksOk(fs, root);
    SameDeletionsOnHostTrees(fs, ds);
    SameCommitOnHostTrees(fs, fs[root].child);
  }

  /** A deleted fiber that owns no node (a component) removes nothing in this commit,
      which only removes the deleted fiber's own node; the library's commit removes the
      node of its first host descendant instead. */
  lemma ComponentParentDiffers()
    ensures var fs := [
              Fiber(Some(Host("div")), [], [], Some(0), None, Some(1), None, None, None, []),
              Fiber(Some(Component(0)), [], [], None, Some(0), Some(2), None, None, Some(Deletion), []),
              Fiber(Some(Host("p")), [], [], Some(1), Some(1), None, None, None, None, [])];
            CommitOps(fs, Some(1)) == [] && Core.CommitOps(fs, Some(1)) == [RemoveChild(0, 1)]
  {
    var fs := [
      Fiber(Some(Host("div")), [], [], Some(0), None, Some(1), None, None, None, []),
      Fiber(Some(Component(0)), [], [], None, Some(0), Some(2), None, None, Some(Deletion), []),
      Fiber(Some(Host("p")), [], [], Some(1), Some(1), None, None, None, None, [])];
    assert Core.HostParent(fs, Some(0)) == Some(0);
    assert Core.DeletionOps(fs, 2, 0) == [RemoveChild(0, 1)];
  }

  /** The globals of src/index.js, the fibers they refer to, and the host. */
  class Engine {
    var fibers: Arena
    var wipRoot: Option<nat>
    var currentRoot: Option<nat>
    var deletions: seq<nat>
    var nextUnitOfWork: Option<nat>
    /** The host calls made so far. */
    var log: seq<HostOp>
    /** The number the next created host node gets. */
    var nextNode: NodeId

    /** Every global fiber reference points into a well-linked arena. */
    ghost predicate Valid()
      reads this
    {
      Fibers.Valid(fibers) &&
      InArena(fibers, wipRoot) && InArena(fibers, currentRoot) && InArena(fibers, nextUnitOfWork) &&
      forall i :: 0 <= i < |deletions| ==> deletions[i] < |fibers|
    }

    /** The state at script load. */
    constructor ()
      ensures Valid()
      ensures fibers == [] && log == [] && nextNode == 0 && deletions == []
      ensures wipRoot.None? && currentRoot.None? && nextUnitOfWork.None?
    {
      fibers, log, nextNode, deletions := [], [], 0, [];
      wipRoot, currentRoot, nextUnitOfWork := None, None, None;
    }

    /** `render(element, container)`: a new root owning the container node, with the
        element as its only child and the current root as its alternate, becomes both the
        work-in-progress root and the next unit of work; pending deletions are dropped. */
    method Render(element: Element, container: NodeId)
      requires Valid()
      modifies this`fibers, this`wipRoot, this`deletions, this`nextUnitOfWork
      ensures Valid()
      ensures fibers == old(fibers) + [Fiber(None, [], [element], Some(container), None, None, None, currentRoot, None, [])]
      ensures wipRoot == Some(|old(fibers)|) && nextUnitOfWork == wipRoot && deletions == []
    {
      var root := Fiber(None, [], [element], Some(container), None, None, None, currentRoot, None, []);
      AppendKeepsValid(fibers, root);
      wipRoot := Some(|fibers|);
      fibers := fibers + [root];
      deletions := [];
      nextUnitOfWork := wipRoot;
    }

    // -------------------------------------------------------------------------
    // The render phase

    /** `performUnitOfWork(fiber)`: a node is made if the fiber has none, its children are
        reconciled, and the next unit of work is its pre-order successor. */
    method PerformUnitOfWork(fiber: nat) returns (next: Option<nat>)
      requires Valid() && fiber < |fibers|
      modifies this`fibers, this`deletions, this`log, this`nextNode
      ensures Valid()
      ensures var fs := WithDom(old(fibers), fiber, old(nextNode));
              fibers == ReconciledFibers(fs, fiber, fs[fiber].children) &&
              deletions == ReconciledDeletions(fs, old(deletions), fiber, fs[fiber].children)
      ensures log == old(log) + DomOps(old(fibers), fiber, old(nextNode))
      ensures nextNode == if old(fibers)[fiber].dom.Some? then old(nextNode) else old(nextNode) + 1
      ensures fiber < |fibers| && next == PreOrderNext(fibers, fiber) && InArena(fibers, next)
    {
      var fs, ops, node := EnsureDom(fibers, fiber, nextNode);
      var r, d, _ := ReconcileChildren(fs, deletions, fiber, fs[fiber].children);
      fibers, deletions, log, nextNode := r, d, log + ops, node;
      next := NextUnitOfWork(fibers, fiber);
    }

    // -------------------------------------------------------------------------
    // The commit phase

    /** The effect branches of `commitWork`, other than a deletion under a parent node. */
    method CommitEffect(fs: Arena, fiber: nat, parentDom: Option<NodeId>)
      requires fiber < |fs|
      modifies this`log
      ensures log == old(log) + EffectOps(fs, fiber, parentDom)
    {
      var x := fs[fiber];
      if x.effectTag == Some(Placement) && x.dom.Some? && parentDom.Some? {
        log := log + [AppendChild(parentDom.value, x.dom.value)];
      } else if x.effectTag == Some(Update) && x.dom.Some? {
        log := log + UpdateDom(x.dom.value, PrevProps(fs, fiber), x.props);
      }
    }

    /** `commitWork(fiber)` over the fibers `fs`. */
    method CommitWork(fs: Arena, fiber: Option<nat>)
      requires Fibers.Valid(fs) && InArena(fs, fiber)
      modifies this`log
      ensures log == old(log) + CommitOps(fs, fiber)
      decreases if fiber.Some? then |fs| - fiber.value else 0
    {
      if fiber.None? {
        return;
      }
      var f := fiber.value;
      var x := fs[f];
      assert LinksOk(fs, f);
      var parentDom := ParentDom(fs, f);
      if x.effectTag == Some(Deletion) && parentDom.Some? {
        if x.dom.Some? {
          log := log + [RemoveChild(parentDom.value, x.dom.value)];
        }
        return;
      }
      ghost var start := log;
      CommitEffect(fs, f, parentDom);
      CommitWork(fs, x.child);
      CommitWork(fs, x.sibling);
      Core.SeqAssoc4(start, EffectOps(fs, f, parentDom), CommitOps(fs, x.child), CommitOps(fs, x.sibling));
    }

    /** `deletions.forEach(commitWork)` over the fibers `fs`. */
    method CommitDeletions(fs: Arena, ds: seq<nat>)
      requires Fibers.Valid(fs) && forall i :: 0 <= i < |ds| ==> ds[i] < |fs|
      modifies this`log
      ensures log == old(log) + DeletionsOps(fs, ds)
    {
      var i := 0;
      while i < |ds|
        invariant i <= |ds|
        invariant log == old(log) + DeletionsOps(fs, ds[..i])
      {
        DeletionsOpsSnoc(fs, ds, i);
        CommitWork(fs, Some(ds[i]));
        i := i + 1;
      }
      assert ds[..i] == ds;
    }

    /** `commitRoot()`: the queued deletions first, in order, then the work-in-progress tree
        from its first child; the work-in-progress root becomes the current root. Without a
        work-in-progress root nothing happens. */
    method CommitRoot()
      requires Valid()
      modifies this`log, this`currentRoot, this`wipRoot
      ensures Valid()
      ensures old(wipRoot).None? ==> log == old(log) && currentRoot == old(currentRoot) && wipRoot.None?
      ensures old(wipRoot).Some? ==>
                log == old(log) + DeletionsOps(fibers, deletions) + CommitOps(fibers, fibers[old(wipRoot).value].child) &&
                currentRoot == old(wipRoot) && wipRoot.None?
    {
      if wipRoot.None? {
        return;
      }
      var fs := fibers;
      CommitDeletions(fs, deletions);
      assert LinksOk(fs, wipRoot.value);
      CommitWork(fs, fs[wipRoot.value].child);
      currentRoot := wipRoot;
      wipRoot := None;
    }

    // -------------------------------------------------------------------------
    // The work loop

    /** `nextUnitOfWork = performUnitOfWork(nextUnitOfWork)`. */
    method Step()
      requires Valid() && nextUnitOfWork.Some?
      modifies this`fibers, this`deletions, this`log, this`nextNode, this`nextUnitOfWork
      ensures Valid() && old(log) <= log
      ensures var f := old(nextUnitOfWork).value;
              f < |fibers| && nextUnitOfWork == PreOrderNext(fibers, f)
    {
      nextUnitOfWork := PerformUnitOfWork(nextUnitOfWork.value);
    }

    /** One idle callback, `workLoop(deadline)`: units of work run while there is one and
        the reading `timeRemaining[k]` taken after unit `k` is at least 1 (once the readings
        run out the loop yields); with no work left and a work-in-progress root, the root
        is committed. */
    method WorkLoop(timeRemaining: seq<int>) returns (performed: nat)
      requires Valid()
      modifies this`fibers, this`deletions, this`log, this`nextNode
      modifies this`nextUnitOfWork, this`currentRoot, this`wipRoot
      ensures Valid()
      ensures old(log) <= log
      ensures nextUnitOfWork.None? ==> wipRoot.None?
      ensures old(nextUnitOfWork).None? ==> performed == 0
      ensures old(nextUnitOfWork).None? && old(wipRoot).None? ==> log == old(log) && fibers == old(fibers)
      ensures nextUnitOfWork.None? && old(wipRoot).Some? ==> currentRoot == old(wipRoot)
      ensures old(nextUnitOfWork).None? && old(wipRoot).Some? ==>
                log == old(log) + DeletionsOps(old(fibers), old(deletions)) +
                       CommitOps(old(fibers), old(fibers)[old(wipRoot).value].child)
      ensures performed <= |timeRemaining| + 1
      ensures forall k :: 0 <= k < performed - 1 ==> timeRemaining[k] >= 1
      ensures nextUnitOfWork.Some? ==>
                1 <= performed && (performed - 1 >= |timeRemaining| || timeRemaining[performed - 1] < 1)
    {
      performed := 0;
      var shouldYield := false;
      while nextUnitOfWork.Some? && !shouldYield
        invariant Valid() && old(log) <= log
        invariant old(nextUnitOfWork).None? ==>
                    nextUnitOfWork.None? && performed == 0 && fibers == old(fibers) && log == old(log) &&
                    deletions == old(deletions)
        invariant wipRoot == old(wipRoot)
        invariant performed <= |timeRemaining| + 1
        invariant shouldYield <==>
                    1 <= performed && (performed - 1 >= |timeRemaining| || timeRemaining[performed - 1] < 1)
        invariant forall k :: 0 <= k < performed - 1 ==> timeRemaining[k] >= 1
        decreases |timeRemaining| + 1 - performed
      {
        Step();
        shouldYield := (if performed < |timeRemaining| then timeRemaining[performed] else 0) < 1;
        performed := performed + 1;
      }
      if nextUnitOfWork.None? && wipRoot.Some? {
        CommitRoot();
      }
    }
  }
}
