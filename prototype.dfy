/**
 * The day-2 prototype of src/index.ts. There is no reconciler, no commit phase and no
 * work-in-progress root: each unit of work makes its fiber's node if it has none,
 * appends that node to the parent's node at once, and builds a fresh chain of child
 * fibers, one per element, without looking at any earlier fibers.
 *
 * Fibers of this engine use only the kind, props, children, node, parent, child and
 * sibling fields of `Fibers.Fiber`; the others stay empty.
 */
module Prototype {
  import opened Options
  import opened Elements
  import opened Dom
  import opened Fibers

  // ---------------------------------------------------------------------------
  // Nodes

  /** The property assignments of this `createDom`, key by key: every key except `children`
      is assigned as a property, event keys included. */
  function AssignAll(node: NodeId, props: Props, keys: seq<string>): (ops: seq<HostOp>)
    ensures forall i :: 0 <= i < |ops| ==> ops[i].SetProp? && ops[i].node == node
  {
    if keys == [] then []
    else
      (if keys[0] != "children" then [SetProp(node, keys[0], Get(props, keys[0]))] else []) +
      AssignAll(node, props, keys[1..])
  }

  /** `createDom(fiber)` of src/index.ts on a fresh node id. */
  function CreateNode(node: NodeId, kind: Option<ElemType>, props: Props): seq<HostOp>
  {
    [if kind == Some(Host(TextTag)) then CreateTextNode(node) else CreateElementNode(node, kind)] +
    AssignAll(node, props, Keys(props))
  }

  /** An assignment is made exactly for each listed key other than `children`, with that
      key's value; in particular no listener is ever added. */
  lemma {:induction false} AssignAllExactly(node: NodeId, props: Props, keys: seq<string>, op: HostOp)
    ensures op in AssignAll(node, props, keys) <==>
            exists k :: k in keys && k != "children" && op == SetProp(node, k, Get(props, k))
    decreases |keys|
  {
    if keys != [] {
      AssignAllExactly(node, props, keys[1..], op);
      var rest := AssignAll(node, props, keys[1..]);
      assert AssignAll(node, props, keys) ==
             (if keys[0] != "children" then [SetProp(node, keys[0], Get(props, keys[0]))] else []) + rest;
      if exists k :: k in keys && k != "children" && op == SetProp(node, k, Get(props, k)) {
        var k :| k in keys && k != "children" && op == SetProp(node, k, Get(props, k));
        if k != keys[0] {
          assert k in keys[1..];
        }
      }
      forall k | k in keys[1..] ensures k in keys {
      }
    }
  }

  /** The node `createDom` makes carries every prop except `children`, event handlers
      assigned as plain properties, and no listener. */
  lemma CreateNodeAssignsProps(node: NodeId, kind: Option<ElemType>, props: Props, key: string, v: Value)
    ensures CreateNode(node, kind, props)[0] ==
            if kind == Some(Host(TextTag)) then CreateTextNode(node) else CreateElementNode(node, kind)
    ensures SetProp(node, key, v) in CreateNode(node, kind, props) <==>
            HasKey(props, key) && key != "children" && v == Get(props, key)
    ensures forall i :: 0 < i < |CreateNode(node, kind, props)| ==> CreateNode(node, kind, props)[i].SetProp?
  {
    HasKeyIffInKeys(props, key);
    AssignAllExactly(node, props, Keys(props), SetProp(node, key, v));
  }

  /** The host calls of `if (!fiber.dom) fiber.dom = createDom(fiber)`. */
  function NodeOps(fs: Arena, f: nat, node: NodeId): seq<HostOp>
    requires f < |fs|
  {
    if fs[f].dom.Some? then [] else CreateNode(node, fs[f].kind, fs[f].props)
  }

  /** `if (fiber.parent && fiber.dom) fiber.parent.dom?.appendChild(fiber.dom)`. */
  function AttachOps(fs: Arena, f: nat): (ops: seq<HostOp>)
    requires f < |fs|
    ensures |ops| <= 1
    ensures ops != [] <==>
            fs[f].parent.Some? && fs[f].parent.value < |fs| && fs[f].dom.Some? && fs[fs[f].parent.value].dom.Some?
    ensures ops != [] ==> ops == [AppendChild(fs[fs[f].parent.value].dom.value, fs[f].dom.value)]
  {
    match fs[f].parent
    case Some(p) =>
      if p < |fs| && fs[f].dom.Some? && fs[p].dom.Some? then [AppendChild(fs[p].dom.value, fs[f].dom.value)] else []
    case None => []
  }

  // ---------------------------------------------------------------------------
  // The child chain

  /** A fresh child fiber: the element's type and props, `parent = fiber`, no node. */
  function ChildFiber(f: nat, e: Element): Fiber
  {
    Fiber(Some(e.kind), e.props, e.children, None, Some(f), None, None, None, None, [])
  }

  /** The arena after the `while (index < elements.length)` loop of `performUnitOfWork`
      has linked the elements `es`: one new fiber per element, appended in order, the first
      becoming `fiber.child` and each later one the previous one's `sibling`. */
  function Linked(fs: Arena, f: nat, es: seq<Element>): (r: Arena)
    requires f < |fs|
    ensures |r| == |fs| + |es|
    decreases |es|
  {
    if es == [] then fs
    else
      var a := Linked(fs, f, es[..|es| - 1]);
      var n := |fs| + |es| - 1;
      var b := if |es| == 1 then a[f := a[f].(child := Some(n))] else a[n - 1 := a[n - 1].(sibling := Some(n))];
      b + [ChildFiber(f, es[|es| - 1])]
  }

  /** The linked arena fiber by fiber: earlier fibers are kept, except the child link of
      `f`; new fiber `k` is the child fiber of element `k`, linked to the next one. */
  lemma {:induction false} LinkedAt(fs: Arena, f: nat, es: seq<Element>, j: nat)
    requires f < |fs| && j < |fs| + |es|
    ensures j < |fs| && j != f ==> Linked(fs, f, es)[j] == fs[j]
    ensures j == f ==> Linked(fs, f, es)[j] == if es == [] then fs[f] else fs[f].(child := Some(|fs|))
    ensures |fs| <= j ==>
              Linked(fs, f, es)[j] ==
              ChildFiber(f, es[j - |fs|]).(sibling := if j + 1 < |fs| + |es| then Some(j + 1) else None)
    decreases |es|
  {
    if es != [] {
      var es' := es[..|es| - 1];
      var n := |fs| + |es| - 1;
      if j < n {
        LinkedAt(fs, f, es', j);
        if |fs| <= j {
          assert es'[j - |fs|] == es[j - |fs|];
        }
      }
    }
  }

  /** After linking, the chain from `fiber.child` holds exactly one fiber per element, in
      order. */
  lemma LinkedChain(fs: Arena, f: nat, es: seq<Element>)
    requires f < |fs| && es != []
    ensures var r := Linked(fs, f, es);
            r[f].child == Some(|fs|) && Chain(r, r[f].child) == seq(|es|, i => |fs| + i)
  {
    var r := Linked(fs, f, es);
    LinkedAt(fs, f, es, f);
    forall j | |fs| <= j < |fs| + |es|
      ensures r[j].sibling == if j + 1 < |fs| + |es| then Some(j + 1) else None
    {
      LinkedAt(fs, f, es, j);
    }
    ChainOfRun(r, |fs|, |es|, 0);
  }

  /** Fiber `k` of the new chain has element `k`'s type, props and children,
      `parent = fiber`, no node and no child. */
  lemma LinkedChild(fs: Arena, f: nat, es: seq<Element>, k: nat)
    requires f < |fs| && k < |es|
    ensures var c := Linked(fs, f, es)[|fs| + k];
            c.kind == Some(es[k].kind) && c.props == es[k].props && c.children == es[k].children &&
            c.parent == Some(f) && c.dom.None? && c.child.None?
  {
    LinkedAt(fs, f, es, |fs| + k);
  }

  /** Linking keeps the arena's links in order. */
  lemma LinkedKeepsValid(fs: Arena, f: nat, es: seq<Element>)
    requires Fibers.Valid(fs) && f < |fs|
    ensures Fibers.Valid(Linked(fs, f, es))
  {
    var r := Linked(fs, f, es);
    forall j | 0 <= j < |r| ensures LinksOk(r, j) {
      LinkedAt(fs, f, es, j);
      if j < |fs| {
        assert LinksOk(fs, j);
      }
    }
  }

  /** The globals of src/index.ts, the fibers they refer to, and the host. */
  class Engine {
    var fibers: Arena
    var nextUnitOfWork: Option<nat>
    /** The host calls made so far. */
    var log: seq<HostOp>
    /** The number the next created host node gets. */
    var nextNode: NodeId

    /** The cursor points into a well-linked arena. */
    ghost predicate Valid()
      reads this
    {
      Fibers.Valid(fibers) && InArena(fibers, nextUnitOfWork)
    }

    /** The state at module load. */
    constructor ()
      ensures Valid()
      ensures fibers == [] && log == [] && nextNode == 0 && nextUnitOfWork.None?
    {
      fibers, log, nextNode, nextUnitOfWork := [], [], 0, None;
    }

    /** `render(element, container)`: the cursor is set to a new root owning the container
        node, with the element as its only child. */
    method Render(element: Element, container: NodeId)
      requires Valid()
      modifies this`fibers, this`nextUnitOfWork
      ensures Valid()
      ensures fibers == old(fibers) + [Fiber(None, [], [element], Some(container), None, None, None, None, None, [])]
      ensures nextUnitOfWork == Some(|old(fibers)|)
    {
      var root := Fiber(None, [], [element], Some(container), None, None, None, None, None, []);
      AppendKeepsValid(fibers, root);
      nextUnitOfWork := Some(|fibers|);
      fibers := fibers + [root];
    }

    /** `if (!fiber.dom) fiber.dom = createDom(fiber)`. */
    method EnsureDom(fiber: nat)
      requires Valid() && fiber < |fibers|
      modifies this`fibers, this`log, this`nextNode
      ensures Valid()
      ensures fibers == WithDom(old(fibers), fiber, old(nextNode))
      ensures log == old(log) + NodeOps(old(fibers), fiber, old(nextNode))
      ensures nextNode == if old(fibers)[fiber].dom.Some? then old(nextNode) else old(nextNode) + 1
    {
      if fibers[fiber].dom.None? {
        log := log + CreateNode(nextNode, fibers[fiber].kind, fibers[fiber].props);
        assert LinksOk(fibers, fiber);
        ReplaceKeepsValid(fibers, fiber, fibers[fiber].(dom := Some(nextNode)));
        fibers := fibers[fiber := fibers[fiber].(dom := Some(nextNode))];
        nextNode := nextNode + 1;
      }
    }

    /** The node goes into the parent's node during the render itself. */
    method AttachToParent(fiber: nat)
      requires Valid() && fiber < |fibers|
      modifies this`log
      ensures log == old(log) + AttachOps(fibers, fiber)
    {
      var x := fibers[fiber];
      if x.parent.Some? && x.dom.Some? {
        var p := x.parent.value;
        assert LinksOk(fibers, fiber);
        if fibers[p].dom.Some? {
          log := log + [AppendChild(fibers[p].dom.value, x.dom.value)];
        }
      }
    }

    /** The child-chain loop of `performUnitOfWork`. */
    method LinkChildren(fiber: nat)
      requires Valid() && fiber < |fibers|
      modifies this`fibers
      ensures Valid()
      ensures fibers == Linked(old(fibers), fiber, old(fibers)[fiber].children)
    {
      ghost var fs := fibers;
      var elements := fibers[fiber].children;
      var index := 0;
      var prevSibling: Option<nat> := None;
      while index < |elements|
        invariant index <= |elements|
        invariant fibers == Linked(fs, fiber, elements[..index])
        invariant prevSibling == if index == 0 then None else Some(|fs| + index - 1)
        invariant Valid()
      {
        var element := elements[index];
        var newFiber := ChildFiber(fiber, element);
        var n := |fibers|;
        if index == 0 {
          fibers := fibers[fiber := fibers[fiber].(child := Some(n))];
        } else if prevSibling.Some? {
          fibers := fibers[prevSibling.value := fibers[prevSibling.value].(sibling := Some(n))];
        }
        fibers := fibers + [newFiber];
        prevSibling := Some(n);
        index := index + 1;
        assert elements[..index][..index - 1] == elements[..index - 1];
        LinkedKeepsValid(fs, fiber, elements[..index]);
      }
      assert elements[..index] == elements;
    }

    /** `performUnitOfWork(fiber)`: the fiber gets a node if it has none, the node is
        appended to the parent's node, the children are linked as fresh fibers, and the
        next unit of work is the pre-order successor. */
    method PerformUnitOfWork(fiber: nat) returns (next: Option<nat>)
      requires Valid() && fiber < |fibers|
      modifies this`fibers, this`log, this`nextNode
      ensures Valid()
      ensures var fs := WithDom(old(fibers), fiber, old(nextNode));
              fibers == Linked(fs, fiber, fs[fiber].children) &&
              log == old(log) + NodeOps(old(fibers), fiber, old(nextNode)) + AttachOps(fs, fiber)
      ensures nextNode == if old(fibers)[fiber].dom.Some? then old(nextNode) else old(nextNode) + 1
      ensures fiber < |fibers| && next == PreOrderNext(fibers, fiber) && InArena(fibers, next)
    {
      EnsureDom(fiber);
      AttachToParent(fiber);
      LinkChildren(fiber);
      next := NextUnitOfWork(fibers, fiber);
    }

    /** `nextUnitOfWork = performUnitOfWork(nextUnitOfWork)`. */
    method Step()
      requires Valid() && nextUnitOfWork.Some?
      modifies this`fibers, this`log, this`nextNode, this`nextUnitOfWork
      ensures Valid() && old(log) <= log
      ensures var f := old(nextUnitOfWork).value;
              f < |fibers| && nextUnitOfWork == PreOrderNext(fibers, f)
    {
      nextUnitOfWork := PerformUnitOfWork(nextUnitOfWork.value);
    }

    /** One idle callback, `workLoop(deadline)`: units of work run while there is one and
        the reading `timeRemaining[k]` taken after unit `k` is at least 1 (once the readings
        run out the loop yields). There is no commit. */
    method WorkLoop(timeRemaining: seq<int>) returns (performed: nat)
      requires Valid()
      modifies this`fibers, this`log, this`nextNode, this`nextUnitOfWork
      ensures Valid()
      ensures old(log) <= log
      ensures old(nextUnitOfWork).None? ==> performed == 0 && log == old(log) && fibers == old(fibers)
      ensures performed <= |timeRemaining| + 1
      ensures forall k :: 0 <= k < performed - 1 ==> timeRemaining[k] >= 1
      ensures nextUnitOfWork.Some? ==>
                1 <= performed && (performed - 1 >= |timeRemaining| || timeRemaining[performed - 1] < 1)
    {
      performed := 0;
      var shouldYield := false;
      while nextUnitOfWork.Some? && !shouldYield
        invariant Valid() && old(log) <= log
        invariant old(nextUnitOfWork).None? ==>
                    nextUnitOfWork.None? && performed == 0 && fibers == old(fibers) && log == old(log)
        invariant performed <= |timeRemaining| + 1
        invariant shouldYield <==>
                    1 <= performed && (performed - 1 >= |timeRemaining| || timeRemaining[performed - 1] < 1)
        invariant forall k :: 0 <= k < performed - 1 ==> timeRemaining[k] >= 1
        decreases |timeRemaining| + 1 - performed
      {
        Step();
        shouldYield := (if performed < |timeRemaining| then timeRemaining[performed] else 0) < 1;
        performed := performed + 1;
      }
    }
  }
}
