/**
 * Fibers: the mutable retained nodes (src/j-react/types.ts:14-27) and the two
 * algorithms the three engines share word for word: the next unit of work in
 * pre-order, and the positional reconciler `reconcileChildren`.
 *
 * The fibers of all generations live in one arena, a `seq<Fiber>`; a fiber
 * reference is its index, and `parent`, `child`, `sibling` and `alternate` are
 * optional indices. Creating a fiber appends it to the arena; assigning one of
 * its fields replaces its record. Fibers are never reclaimed.
 */
module Fibers {
  import opened Options
  import opened Elements
  import opened Dom

  datatype EffectTag = Placement | Update | Deletion

  /** What `setState` is called with: a function, applied to the previous state, or any
      other value, which replaces it. */
  datatype SetStateArg = Literal(value: Value) | Updater(apply: Value -> Value)

  /** A queued state update. `typeof action === "function"` decides between the two, so
      a function value is always an `Updater`: a `Literal` never holds a `Fn`. */
  type Action = a: SetStateArg | !(a.Literal? && a.value.Fn?) witness Literal(Undefined)

  datatype Hook = Hook(state: Value, queue: seq<Action>)

  /** A fiber; `kind` is the source's `type` and is `None` on a root. The source keeps
      `children` inside `props`; here they are a field of their own. An absent `hooks`
      is the empty list (`hooks?.[i]` reads `undefined` from both). */
  datatype Fiber = Fiber(
    kind: Option<ElemType>,
    props: Props,
    children: seq<Element>,
    dom: Option<NodeId>,
    parent: Option<nat>,
    child: Option<nat>,
    sibling: Option<nat>,
    alternate: Option<nat>,
    effectTag: Option<EffectTag>,
    hooks: seq<Hook>)

  type Arena = seq<Fiber>

  /** The links of fiber `i` point into the arena: a parent and an alternate were made
      before the fiber, a child and a next sibling after it. An Update fiber has an alternate. */
  predicate LinksOk(fs: Arena, i: nat)
    requires i < |fs|
  {
    var f := fs[i];
    (f.parent.Some? ==> f.parent.value < i) &&
    (f.child.Some? ==> i < f.child.value < |fs|) &&
    (f.sibling.Some? ==> i < f.sibling.value < |fs|) &&
    (f.alternate.Some? ==> f.alternate.value < i) &&
    (f.effectTag == Some(Update) ==> f.alternate.Some?)
  }

  predicate Valid(fs: Arena)
  {
    forall i :: 0 <= i < |fs| ==> LinksOk(fs, i)
  }

  predicate InArena(fs: Arena, p: Option<nat>)
  {
    p.Some? ==> p.value < |fs|
  }

  /** Appending a fiber whose own links are in order keeps the arena valid. */
  lemma AppendKeepsValid(fs: Arena, f: Fiber)
    requires Valid(fs) && LinksOk(fs + [f], |fs|)
    ensures Valid(fs + [f])
  {
    var g := fs + [f];
    forall i | 0 <= i < |fs| ensures LinksOk(g, i) {
      assert LinksOk(fs, i);
    }
  }

  /** Replacing a fiber by one whose links are in order keeps the arena valid. */
  lemma ReplaceKeepsValid(fs: Arena, j: nat, f: Fiber)
    requires Valid(fs) && j < |fs| && LinksOk(fs[j := f], j)
    ensures Valid(fs[j := f])
  {
    var g := fs[j := f];
    forall i | 0 <= i < |g| && i != j ensures LinksOk(g, i) {
      assert LinksOk(fs, i);
    }
  }

  // ---------------------------------------------------------------------------
  // Walks over the links

  /** The fiber `p` and its ancestors, nearest first. (The guards never fail in a valid arena.) */
  function Path(fs: Arena, p: Option<nat>): (path: seq<nat>)
    ensures forall k :: 0 <= k < |path| ==> path[k] < |fs|
    decreases if p.Some? then p.value + 1 else 0
  {
    if p.None? || p.value >= |fs| then []
    else match fs[p.value].parent
      case Some(q) => if q < p.value then [p.value] + Path(fs, Some(q)) else [p.value]
      case None => [p.value]
  }

  /** The chain `s`, `s.sibling`, `s.sibling.sibling`, ... (The guards never fail in a valid arena.) */
  function Chain(fs: Arena, s: Option<nat>): (c: seq<nat>)
    ensures forall k :: 0 <= k < |c| ==> c[k] < |fs|
    decreases if s.Some? && s.value < |fs| then |fs| - s.value else 0
  {
    if s.None? || s.value >= |fs| then []
    else match fs[s.value].sibling
      case Some(t) => if s.value < t then [s.value] + Chain(fs, Some(t)) else [s.value]
      case None => [s.value]
  }

  /** `c` is a run of fibers each of whose sibling is the next, the last having none,
      with ascending indices. */
  ghost predicate SiblingRun(fs: Arena, c: seq<nat>)
  {
    (forall k :: 0 <= k < |c| ==> c[k] < |fs|) &&
    (forall k, l :: 0 <= k < l < |c| && l == k + 1 ==> fs[c[k]].sibling == Some(c[l])) &&
    (|c| > 0 ==> fs[c[|c| - 1]].sibling.None?) &&
    (forall a, b :: 0 <= a < b < |c| ==> c[a] < c[b])
  }

  /** In a valid arena the chain follows the sibling links to the end, and its indices ascend. */
  lemma {:induction false} ChainLinks(fs: Arena, s: Option<nat>)
    requires Valid(fs) && InArena(fs, s)
    ensures Chain(fs, s) == [] <==> s.None?
    ensures s.Some? ==> Chain(fs, s)[0] == s.value
    ensures SiblingRun(fs, Chain(fs, s))
    decreases if s.Some? then |fs| - s.value else 0
  {
    if s.Some? {
      assert LinksOk(fs, s.value);
      var t := fs[s.value].sibling;
      if t.Some? {
        ChainLinks(fs, t);
        var c := Chain(fs, s);
        var r := Chain(fs, t);
        assert c == [s.value] + r;
        assert r != [] && r[0] == t.value;
        forall k, l | 0 <= k < l < |c| && l == k + 1 ensures fs[c[k]].sibling == Some(c[l]) {
          if k > 0 {
            assert c[k] == r[k - 1] && c[l] == r[l - 1];
          }
        }
        assert c[|c| - 1] == r[|r| - 1];
        forall a, b | 0 <= a < b < |c| ensures c[a] < c[b] {
          if a == 0 {
            assert c[b] == r[b - 1];
            if b > 1 {
              assert r[0] < r[b - 1];
            }
          } else {
            assert c[a] == r[a - 1] && c[b] == r[b - 1];
          }
        }
        assert SiblingRun(fs, c);
      } else {
        assert Chain(fs, s) == [s.value];
      }
    }
  }

  /** A run of fibers `a`, `a + 1`, ..., `a + n - 1`, each the next one's elder sibling,
      the last with none, is the sibling chain from any of them. */
  lemma {:induction false} ChainOfRun(fs: Arena, a: nat, n: nat, i: nat)
    requires i < n && a + n <= |fs|
    requires forall j :: a <= j < a + n ==> fs[j].sibling == if j + 1 < a + n then Some(j + 1) else None
    ensures Chain(fs, Some(a + i)) == seq(n - i, k => a + i + k)
    decreases n - i
  {
    assert fs[a + i].sibling == if a + i + 1 < a + n then Some(a + i + 1) else None;
    if i + 1 < n {
      ChainOfRun(fs, a, n, i + 1);
      assert Chain(fs, Some(a + i)) == [a + i] + Chain(fs, Some(a + i + 1));
    }
  }

  /** The sibling of the first fiber on the path from `x` upward that has one. */
  function SiblingUp(fs: Arena, x: Option<nat>): Option<nat>
    decreases if x.Some? then x.value + 1 else 0
  {
    if x.None? || x.value >= |fs| then None
    else if fs[x.value].sibling.Some? then fs[x.value].sibling
    else match fs[x.value].parent
      case Some(q) => if q < x.value then SiblingUp(fs, Some(q)) else None
      case None => None
  }

  /** What `performUnitOfWork` returns after processing `f`. */
  function PreOrderNext(fs: Arena, f: nat): Option<nat>
    requires f < |fs|
  {
    if fs[f].child.Some? then fs[f].child else SiblingUp(fs, Some(f))
  }

  /** The tail of `performUnitOfWork`: the child, else the sibling of the nearest fiber on
      the way up that has one, else null. */
  method NextUnitOfWork(fs: Arena, fiber: nat) returns (next: Option<nat>)
    requires Valid(fs) && fiber < |fs|
    ensures next == PreOrderNext(fs, fiber)
    ensures InArena(fs, next)
  {
    if fs[fiber].child.Some? {
      assert LinksOk(fs, fiber);
      return fs[fiber].child;
    }
    var nextFiber: Option<nat> := Some(fiber);
    while nextFiber.Some?
      invariant InArena(fs, nextFiber)
      invariant SiblingUp(fs, nextFiber) == SiblingUp(fs, Some(fiber))
      decreases if nextFiber.Some? then nextFiber.value + 1 else 0
    {
      assert LinksOk(fs, nextFiber.value);
      if fs[nextFiber.value].sibling.Some? {
        return fs[nextFiber.value].sibling;
      }
      nextFiber := fs[nextFiber.value].parent;
    }
    return None;
  }

  /** No fiber on `path` has a sibling. */
  predicate NoSiblingOn(fs: Arena, path: seq<nat>)
  {
    forall k :: 0 <= k < |path| ==> path[k] < |fs| && fs[path[k]].sibling.None?
  }

  /** `s` is the sibling of the first fiber on `path` that has one. */
  predicate FirstSiblingOn(fs: Arena, path: seq<nat>, s: nat)
  {
    exists k :: 0 <= k < |path| && path[k] < |fs| && fs[path[k]].sibling == Some(s) &&
                NoSiblingOn(fs, path[..k])
  }

  /** The next unit of work is the child when there is one; otherwise it is the sibling of
      the first fiber on the path fiber, parent, grandparent, ... that has a sibling, and
      there is none when no fiber on that path has one. */
  lemma NextIsPreOrder(fs: Arena, f: nat)
    requires Valid(fs) && f < |fs|
    ensures fs[f].child.Some? ==> PreOrderNext(fs, f) == fs[f].child
    ensures fs[f].child.None? && PreOrderNext(fs, f).None? ==> NoSiblingOn(fs, Path(fs, Some(f)))
    ensures fs[f].child.None? && PreOrderNext(fs, f).Some? ==>
              FirstSiblingOn(fs, Path(fs, Some(f)), PreOrderNext(fs, f).value)
  {
    SiblingUpIsFirstOnPath(fs, Some(f));
  }

  lemma {:induction false} SiblingUpIsFirstOnPath(fs: Arena, x: Option<nat>)
    requires Valid(fs) && InArena(fs, x)
    ensures SiblingUp(fs, x).None? ==> NoSiblingOn(fs, Path(fs, x))
    ensures SiblingUp(fs, x).Some? ==> FirstSiblingOn(fs, Path(fs, x), SiblingUp(fs, x).value)
    decreases if x.Some? then x.value + 1 else 0
  {
    if x.Some? {
      var v := x.value;
      assert LinksOk(fs, v);
      var path := Path(fs, x);
      if fs[v].sibling.Some? {
        assert path[0] == v && NoSiblingOn(fs, path[..0]);
      } else if fs[v].parent.Some? {
        var q := fs[v].parent;
        SiblingUpIsFirstOnPath(fs, q);
        assert path == [v] + Path(fs, q);
        if SiblingUp(fs, q).None? {
          NoSiblingOnCons(fs, v, Path(fs, q));
        } else {
          FirstSiblingOnCons(fs, v, Path(fs, q), SiblingUp(fs, q).value);
        }
      } else {
        assert path == [v];
      }
    }
  }

  /** A fiber without a sibling in front of a path without siblings. */
  lemma NoSiblingOnCons(fs: Arena, v: nat, rest: seq<nat>)
    requires v < |fs| && fs[v].sibling.None? && NoSiblingOn(fs, rest)
    ensures NoSiblingOn(fs, [v] + rest)
  {
    var path := [v] + rest;
    forall k | 0 <= k < |path| ensures path[k] < |fs| && fs[path[k]].sibling.None? {
      if k > 0 { assert path[k] == rest[k - 1]; }
    }
  }

  /** A fiber without a sibling in front of a path does not change the first sibling on it. */
  lemma FirstSiblingOnCons(fs: Arena, v: nat, rest: seq<nat>, s: nat)
    requires v < |fs| && fs[v].sibling.None? && FirstSiblingOn(fs, rest, s)
    ensures FirstSiblingOn(fs, [v] + rest, s)
  {
    var path := [v] + rest;
    var k :| 0 <= k < |rest| && rest[k] < |fs| && fs[rest[k]].sibling == Some(s) && NoSiblingOn(fs, rest[..k]);
    assert path[k + 1] == rest[k];
    assert path[..k + 1] == [v] + rest[..k];
    NoSiblingOnCons(fs, v, rest[..k]);
  }

  // ---------------------------------------------------------------------------
  // The positional reconciler

  /** `wipFiber.alternate?.child`: the first fiber of the old children chain. */
  function AltChild(fs: Arena, w: nat): Option<nat>
    requires w < |fs|
  {
    match fs[w].alternate
    case Some(a) => if a < |fs| then fs[a].child else None
    case None => None
  }

  /** The old children of `w`, in sibling order. */
  function OldChain(fs: Arena, w: nat): seq<nat>
    requires w < |fs|
  {
    Chain(fs, AltChild(fs, w))
  }

  /** Position `i` matches when there is both an element and an old fiber there and
      they have the same type. */
  predicate SameType(fs: Arena, es: seq<Element>, olds: seq<nat>, i: nat)
  {
    i < |es| && i < |olds| && olds[i] < |fs| && fs[olds[i]].kind == Some(es[i].kind)
  }

  /** Linking a successor to the last new fiber gives it its final sibling. */
  lemma NewFiberRelinked(fs: Arena, w: nat, es: seq<Element>, olds: seq<nat>, i: nat)
    requires i + 1 < |es|
    ensures NewFiber(fs, w, es, olds, i, i + 1).(sibling := Some(|fs| + i + 1)) == NewFiber(fs, w, es, olds, i, i + 2)
  {
  }

  /** Linking a successor to a later fiber leaves an already linked fiber unchanged. */
  lemma NewFiberStable(fs: Arena, w: nat, es: seq<Element>, olds: seq<nat>, i: nat, linked: nat)
    requires i + 1 < linked && i < |es|
    ensures NewFiber(fs, w, es, olds, i, linked) == NewFiber(fs, w, es, olds, i, linked + 1)
  {
  }

  /** The old fibers at positions below `k` that do not match, in position order. */
  function Unmatched(fs: Arena, es: seq<Element>, olds: seq<nat>, k: nat): seq<nat>
  {
    if k == 0 then []
    else Unmatched(fs, es, olds, k - 1) +
         (if k - 1 < |olds| && !SameType(fs, es, olds, k - 1) then [olds[k - 1]] else [])
  }

  /** The new fiber for element `i`, appended at index `|fs| + i`, when `linked` new fibers
      are in the chain: an Update of the old fiber at the same position when the types
      match, a Placement otherwise. */
  function NewFiber(fs: Arena, w: nat, es: seq<Element>, olds: seq<nat>, i: nat, linked: nat): Fiber
    requires i < |es|
  {
    var sibling := if i + 1 < linked then Some(|fs| + i + 1) else None;
    if SameType(fs, es, olds, i) then
      var o := fs[olds[i]];
      Fiber(o.kind, es[i].props, es[i].children, o.dom, Some(w), None, sibling, Some(olds[i]), Some(Update), [])
    else
      Fiber(Some(es[i].kind), es[i].props, es[i].children, None, Some(w), None, sibling, None, Some(Placement), [])
  }

  /** Old fiber `j` once `k` positions have been walked: `linked` says whether `w` has had
      its first child linked, and the unmatched old fibers are tagged Deletion. */
  function OldFiberAt(fs: Arena, w: nat, es: seq<Element>, olds: seq<nat>, linked: bool, k: nat, j: nat): (f: Fiber)
    requires j < |fs|
    ensures f.kind == fs[j].kind && f.dom == fs[j].dom && f.sibling == fs[j].sibling && f.parent == fs[j].parent
    ensures f.props == fs[j].props && f.alternate == fs[j].alternate && f.hooks == fs[j].hooks
  {
    var f := if j == w && linked then fs[j].(child := Some(|fs|)) else fs[j];
    if j in Unmatched(fs, es, olds, k) then f.(effectTag := Some(Deletion)) else f
  }

  /** The old arena once the first `k` positions have tagged their unmatched old fibers,
      one assignment at a time. */
  ghost function Marked(fs: Arena, es: seq<Element>, olds: seq<nat>, k: nat): (a: Arena)
    ensures |a| == |fs|
  {
    if k == 0 then fs
    else
      var a := Marked(fs, es, olds, k - 1);
      if k - 1 < |olds| && olds[k - 1] < |fs| && !SameType(fs, es, olds, k - 1)
      then a[olds[k - 1] := a[olds[k - 1]].(effectTag := Some(Deletion))]
      else a
  }

  /** The old arena once `k` positions have been walked, `w` linked to its first new child
      when `linked`. */
  ghost function OldArena(fs: Arena, w: nat, es: seq<Element>, olds: seq<nat>, linked: bool, k: nat): (a: Arena)
    requires w < |fs|
    ensures |a| == |fs|
  {
    var a := Marked(fs, es, olds, k);
    if linked then a[w := a[w].(child := Some(|fs|))] else a
  }

  /** The first `m` new fibers, each appended and then linked from its predecessor. */
  ghost function NewArena(fs: Arena, w: nat, es: seq<Element>, olds: seq<nat>, m: nat): (a: Arena)
    requires m <= |es|
    ensures |a| == m
  {
    if m == 0 then []
    else
      var b := NewArena(fs, w, es, olds, m - 1) + [NewFiber(fs, w, es, olds, m - 1, m)];
      if m == 1 then b else b[m - 2 := b[m - 2].(sibling := Some(|fs| + m - 1))]
  }

  /** The arena after `reconcileChildren(w, es)`: the old fibers, `w` with its first child
      linked and the unmatched old children tagged, then one new fiber per element. */
  ghost function ReconciledFibers(fs: Arena, w: nat, es: seq<Element>): Arena
    requires w < |fs|
  {
    var olds := OldChain(fs, w);
    OldArena(fs, w, es, olds, 0 < |es|, Max(|es|, |olds|)) + NewArena(fs, w, es, olds, |es|)
  }

  /** The deletion list after `reconcileChildren(w, es)`. */
  function ReconciledDeletions(fs: Arena, ds: seq<nat>, w: nat, es: seq<Element>): seq<nat>
    requires w < |fs|
  {
    var olds := OldChain(fs, w);
    ds + Unmatched(fs, es, olds, Max(|es|, |olds|))
  }

  /** Each old fiber of the walked arena is tagged exactly when it is unmatched. */
  lemma {:induction false} MarkedAt(fs: Arena, es: seq<Element>, olds: seq<nat>, k: nat, j: nat)
    requires forall i :: 0 <= i < |olds| ==> olds[i] < |fs|
    requires j < |fs|
    ensures Marked(fs, es, olds, k)[j] ==
            if j in Unmatched(fs, es, olds, k) then fs[j].(effectTag := Some(Deletion)) else fs[j]
  {
    if k > 0 {
      MarkedAt(fs, es, olds, k - 1, j);
    }
  }

  /** The stepwise old arena agrees with its pointwise description. */
  lemma OldArenaAt(fs: Arena, w: nat, es: seq<Element>, olds: seq<nat>, linked: bool, k: nat, j: nat)
    requires forall i :: 0 <= i < |olds| ==> olds[i] < |fs|
    requires w < |fs| && j < |fs|
    ensures OldArena(fs, w, es, olds, linked, k)[j] == OldFiberAt(fs, w, es, olds, linked, k, j)
  {
    MarkedAt(fs, es, olds, k, j);
  }

  /** The stepwise new arena agrees with its pointwise description. */
  lemma {:induction false} NewArenaAt(fs: Arena, w: nat, es: seq<Element>, olds: seq<nat>, m: nat, i: nat)
    requires i < m <= |es|
    ensures NewArena(fs, w, es, olds, m)[i] == NewFiber(fs, w, es, olds, i, m)
  {
    if i + 1 < m {
      NewArenaAt(fs, w, es, olds, m - 1, i);
      if i + 2 == m {
        NewFiberRelinked(fs, w, es, olds, i);
      } else {
        NewFiberStable(fs, w, es, olds, i, m - 1);
      }
    }
  }

  /** Walking position `k` leaves the type, the sibling and the dom of every old fiber alone. */
  lemma OldArenaKeeps(fs: Arena, w: nat, es: seq<Element>, olds: seq<nat>, linked: bool, k: nat, b: Arena, j: nat)
    requires forall i :: 0 <= i < |olds| ==> olds[i] < |fs|
    requires w < |fs| && j < |fs|
    ensures var f := (OldArena(fs, w, es, olds, linked, k) + b)[j];
            f.kind == fs[j].kind && f.sibling == fs[j].sibling && f.dom == fs[j].dom
  {
    OldArenaAt(fs, w, es, olds, linked, k, j);
  }

  /** Tagging the unmatched old fiber at position `k` takes the walk one position further. */
  lemma OldArenaMark(fs: Arena, w: nat, es: seq<Element>, olds: seq<nat>, linked: bool, k: nat, b: Arena)
    requires w < |fs| && k < |olds| && olds[k] < |fs| && !SameType(fs, es, olds, k)
    ensures var f := OldArena(fs, w, es, olds, linked, k) + b;
            f[olds[k] := f[olds[k]].(effectTag := Some(Deletion))] == OldArena(fs, w, es, olds, linked, k + 1) + b
  {
    var a := OldArena(fs, w, es, olds, linked, k);
    var a1 := OldArena(fs, w, es, olds, linked, k + 1);
    assert a[olds[k] := a[olds[k]].(effectTag := Some(Deletion))] == a1;
    assert (a + b)[olds[k] := a[olds[k]].(effectTag := Some(Deletion))] == a[olds[k] := a[olds[k]].(effectTag := Some(Deletion))] + b;
  }

  /** A position with nothing to tag takes the walk one position further unchanged. */
  lemma OldArenaSkip(fs: Arena, w: nat, es: seq<Element>, olds: seq<nat>, linked: bool, k: nat)
    requires w < |fs| && !(k < |olds| && olds[k] < |fs| && !SameType(fs, es, olds, k))
    ensures OldArena(fs, w, es, olds, linked, k) == OldArena(fs, w, es, olds, linked, k + 1)
  {
  }

  /** Appending the first new fiber and linking it as the child of `w`. */
  lemma LinkFirst(fs: Arena, w: nat, es: seq<Element>, olds: seq<nat>, k: nat)
    requires w < |fs| && 0 < |es|
    ensures var f := OldArena(fs, w, es, olds, false, k) + [NewFiber(fs, w, es, olds, 0, 1)];
            f[w := f[w].(child := Some(|fs|))] ==
            OldArena(fs, w, es, olds, true, k) + NewArena(fs, w, es, olds, 1)
  {
    var a := OldArena(fs, w, es, olds, false, k);
    var nf := NewFiber(fs, w, es, olds, 0, 1);
    assert (a + [nf])[w := a[w].(child := Some(|fs|))] == a[w := a[w].(child := Some(|fs|))] + [nf];
  }

  /** Appending new fiber `m` and linking it as the sibling of new fiber `m - 1`. */
  lemma LinkNext(fs: Arena, w: nat, es: seq<Element>, olds: seq<nat>, k: nat, m: nat)
    requires w < |fs| && 0 < m < |es|
    ensures var f := OldArena(fs, w, es, olds, true, k) + NewArena(fs, w, es, olds, m) + [NewFiber(fs, w, es, olds, m, m + 1)];
            f[|fs| + m - 1 := f[|fs| + m - 1].(sibling := Some(|fs| + m))] ==
            OldArena(fs, w, es, olds, true, k) + NewArena(fs, w, es, olds, m + 1)
  {
    var a := OldArena(fs, w, es, olds, true, k);
    var b := NewArena(fs, w, es, olds, m) + [NewFiber(fs, w, es, olds, m, m + 1)];
    assert a + NewArena(fs, w, es, olds, m) + [NewFiber(fs, w, es, olds, m, m + 1)] == a + b;
    assert (a + b)[|a| + (m - 1) := b[m - 1].(sibling := Some(|fs| + m))] == a + b[m - 1 := b[m - 1].(sibling := Some(|fs| + m))];
  }

  /** A chain is empty exactly when it starts nowhere, and starts where it starts. */
  lemma ChainHead(fs: Arena, s: Option<nat>)
    requires Valid(fs) && InArena(fs, s)
    ensures Chain(fs, s) == [] <==> s.None?
    ensures s.Some? ==> Chain(fs, s)[0] == s.value
  {
    ChainLinks(fs, s);
  }

  /** Position `k` of a chain: in the arena, and followed by position `k + 1` if there is one. */
  lemma ChainStep(fs: Arena, s: Option<nat>, k: nat)
    requires Valid(fs) && InArena(fs, s) && k < |Chain(fs, s)|
    ensures Chain(fs, s)[k] < |fs|
    ensures fs[Chain(fs, s)[k]].sibling == if k + 1 < |Chain(fs, s)| then Some(Chain(fs, s)[k + 1]) else None
  {
    ChainLinks(fs, s);
    var c := Chain(fs, s);
    if k + 1 < |c| {
      assert fs[c[k]].sibling == Some(c[k + 1]);
    }
  }

  /** The second half of one iteration of `reconcileChildren`: an old fiber that the
      element at its position does not match is tagged Deletion and queued, and the walk
      moves to its sibling. */
  method RetireOldFiber(ghost fs: Arena, ghost es: seq<Element>, ghost olds: seq<nat>, ghost linked: bool,
                        ghost b: Arena, ghost ds: seq<nat>, wipFiber: nat, index: nat,
                        fibers: Arena, deletions: seq<nat>, oldFiber: Option<nat>, sameType: bool)
    returns (fibers': Arena, deletions': seq<nat>, oldFiber': Option<nat>)
    requires forall i :: 0 <= i < |olds| ==> olds[i] < |fs|
    requires wipFiber < |fs|
    requires oldFiber == if index < |olds| then Some(olds[index]) else None
    requires oldFiber.Some? ==> fs[olds[index]].sibling == if index + 1 < |olds| then Some(olds[index + 1]) else None
    requires sameType == SameType(fs, es, olds, index)
    requires fibers == OldArena(fs, wipFiber, es, olds, linked, index) + b
    requires deletions == ds + Unmatched(fs, es, olds, index)
    ensures fibers' == OldArena(fs, wipFiber, es, olds, linked, index + 1) + b
    ensures deletions' == ds + Unmatched(fs, es, olds, index + 1)
    ensures oldFiber' == if index + 1 < |olds| then Some(olds[index + 1]) else None
  {
    fibers', deletions', oldFiber' := fibers, deletions, oldFiber;
    if oldFiber.Some? && !sameType {
      var o := oldFiber.value;
      OldArenaMark(fs, wipFiber, es, olds, linked, index, b);
      fibers' := fibers'[o := fibers'[o].(effectTag := Some(Deletion))];
      deletions' := deletions' + [o];
    } else {
      OldArenaSkip(fs, wipFiber, es, olds, linked, index);
    }
    if oldFiber.Some? {
      OldArenaKeeps(fs, wipFiber, es, olds, linked, index + 1, b, oldFiber.value);
      oldFiber' := fibers'[oldFiber.value].sibling;
    }
  }

  /** The last part of one iteration of `reconcileChildren`: the new fiber, if any, is
      appended and linked as the first child of `wipFiber` or as the sibling of the
      previous new fiber. */
  method AttachNewFiber(ghost fs: Arena, ghost es: seq<Element>, ghost olds: seq<nat>, ghost k: nat,
                        wipFiber: nat, index: nat, fibers: Arena, prevSibling: Option<nat>, newFiber: Option<Fiber>)
    returns (fibers': Arena, prevSibling': Option<nat>)
    requires wipFiber < |fs|
    requires index < |es| ==> newFiber == Some(NewFiber(fs, wipFiber, es, olds, index, index + 1))
    requires index >= |es| ==> newFiber.None?
    requires fibers == OldArena(fs, wipFiber, es, olds, 0 < Min(index, |es|), k) + NewArena(fs, wipFiber, es, olds, Min(index, |es|))
    requires prevSibling == if Min(index, |es|) > 0 then Some(|fs| + Min(index, |es|) - 1) else None
    ensures fibers' == OldArena(fs, wipFiber, es, olds, 0 < Min(index + 1, |es|), k) +
                       NewArena(fs, wipFiber, es, olds, Min(index + 1, |es|))
    ensures prevSibling' == if Min(index + 1, |es|) > 0 then Some(|fs| + Min(index + 1, |es|) - 1) else None
  {
    fibers', prevSibling' := fibers, prevSibling;
    if newFiber.Some? {
      assert Min(index, |es|) == index && Min(index + 1, |es|) == index + 1;
      var id := |fibers'|;
      assert id == |fs| + index;
      fibers' := fibers' + [newFiber.value];
      if index == 0 {
        assert fibers == OldArena(fs, wipFiber, es, olds, false, k) + [];
        assert fibers == OldArena(fs, wipFiber, es, olds, false, k);
        LinkFirst(fs, wipFiber, es, olds, k);
        fibers' := fibers'[wipFiber := fibers'[wipFiber].(child := Some(id))];
      } else if prevSibling.Some? {
        assert prevSibling.value == |fs| + index - 1;
        LinkNext(fs, wipFiber, es, olds, k, index);
        fibers' := fibers'[prevSibling.value := fibers'[prevSibling.value].(sibling := Some(id))];
      }
      prevSibling' := Some(id);
    } else {
      assert Min(index, |es|) == Min(index + 1, |es|) == |es|;
    }
  }

  /** The variables of the loop of `reconcileChildren` other than its index. */
  datatype WalkState = WalkState(fibers: Arena, deletions: seq<nat>, oldFiber: Option<nat>, prevSibling: Option<nat>)

  /** The loop variables after `k` iterations: the old fibers of the first `k` positions
      walked, the new fibers of the first `min(k, #elements)` elements linked, the
      unmatched old fibers queued, the old fiber at position `k` and the last new fiber. */
  ghost function WalkAt(fs: Arena, ds: seq<nat>, w: nat, es: seq<Element>, k: nat): WalkState
    requires w < |fs|
  {
    var olds := OldChain(fs, w);
    var m := Min(k, |es|);
    WalkState(OldArena(fs, w, es, olds, 0 < m, k) + NewArena(fs, w, es, olds, m),
              ds + Unmatched(fs, es, olds, k),
              if k < |olds| then Some(olds[k]) else None,
              if m > 0 then Some(|fs| + m - 1) else None)
  }

  /** The old child after position `k` of `olds`, if there is one. */
  function NextOld(olds: seq<nat>, k: nat): Option<nat>
  {
    if k + 1 < |olds| then Some(olds[k + 1]) else None
  }

  /** What the loop of `reconcileChildren` relies on about the old children of `w`: the
      walk starts at the first of them, and each one's sibling is the next. */
  ghost predicate OldChainLinked(fs: Arena, w: nat)
    requires w < |fs|
  {
    var olds := OldChain(fs, w);
    AltChild(fs, w) == (if 0 < |olds| then Some(olds[0]) else None) &&
    forall k :: 0 <= k < |olds| ==> fs[olds[k]].sibling == NextOld(olds, k)
  }

  /** A well-linked arena gives that. */
  lemma ValidOldChainLinked(fs: Arena, w: nat)
    requires Valid(fs) && w < |fs|
    ensures OldChainLinked(fs, w)
  {
    assert LinksOk(fs, w);
    if fs[w].alternate.Some? {
      assert LinksOk(fs, fs[w].alternate.value);
    }
    ChainHead(fs, AltChild(fs, w));
    forall k | 0 <= k < |OldChain(fs, w)|
      ensures fs[OldChain(fs, w)[k]].sibling == NextOld(OldChain(fs, w), k)
    {
      ChainStep(fs, AltChild(fs, w), k);
    }
  }

  /** Before the loop: nothing walked, nothing linked, nothing queued. */
  lemma WalkedStart(fs: Arena, ds: seq<nat>, w: nat, es: seq<Element>)
    requires w < |fs| && OldChainLinked(fs, w)
    ensures WalkState(fs, ds, AltChild(fs, w), None) == WalkAt(fs, ds, w, es, 0)
  {
    assert fs + [] == fs && ds + [] == ds;
  }

  /** After the loop: every element and every old fiber has been walked. */
  lemma WalkedDone(fs: Arena, ds: seq<nat>, w: nat, es: seq<Element>, k: nat, st: WalkState)
    requires w < |fs| && k == Max(|es|, |OldChain(fs, w)|)
    requires st == WalkAt(fs, ds, w, es, k)
    ensures st.fibers == ReconciledFibers(fs, w, es)
    ensures st.deletions == ReconciledDeletions(fs, ds, w, es)
  {
    assert Min(k, |es|) == |es|;
  }

  /** The fiber `reconcileChildren` makes for position `index`: an Update of the old fiber
      when the types match, a Placement when there is an element but no match. */
  method ChooseNewFiber(ghost fs: Arena, ghost olds: seq<nat>, wipFiber: nat, elements: seq<Element>, index: nat,
                        fibers: Arena, oldFiber: Option<nat>)
    returns (sameType: bool, newFiber: Option<Fiber>)
    requires oldFiber == if index < |olds| then Some(olds[index]) else None
    requires oldFiber.Some? ==> olds[index] < |fs| && olds[index] < |fibers| &&
                                fibers[olds[index]].kind == fs[olds[index]].kind &&
                                fibers[olds[index]].dom == fs[olds[index]].dom
    ensures sameType == SameType(fs, elements, olds, index)
    ensures index < |elements| ==> newFiber == Some(NewFiber(fs, wipFiber, elements, olds, index, index + 1))
    ensures index >= |elements| ==> newFiber.None?
  {
    newFiber := None;
    sameType := oldFiber.Some? && index < |elements| && fibers[oldFiber.value].kind == Some(elements[index].kind);
    if sameType {
      var o := fibers[oldFiber.value];
      newFiber := Some(Fiber(o.kind, elements[index].props, elements[index].children, o.dom,
                             Some(wipFiber), None, None, oldFiber, Some(Update), []));
    }
    if index < |elements| && !sameType {
      newFiber := Some(Fiber(Some(elements[index].kind), elements[index].props, elements[index].children, None,
                             Some(wipFiber), None, None, None, Some(Placement), []));
    }
  }

  /** What the three steps of one iteration need at position `k`: the loop variables are
      those after `k` iterations, every old child is in the arena, and the current old
      fiber still has its type, node and sibling. */
  ghost predicate StepReady(fs: Arena, ds: seq<nat>, w: nat, es: seq<Element>, k: nat,
                            fibers: Arena, deletions: seq<nat>, oldFiber: Option<nat>, prevSibling: Option<nat>)
    requires w < |fs|
  {
    var olds := OldChain(fs, w);
    var m := Min(k, |es|);
    oldFiber == (if k < |olds| then Some(olds[k]) else None) &&
    fibers == OldArena(fs, w, es, olds, 0 < m, k) + NewArena(fs, w, es, olds, m) &&
    prevSibling == (if m > 0 then Some(|fs| + m - 1) else None) &&
    deletions == ds + Unmatched(fs, es, olds, k) &&
    (forall i :: 0 <= i < |olds| ==> olds[i] < |fs|) &&
    (oldFiber.Some? ==>
       k < |olds| && olds[k] < |fs| && olds[k] < |fibers| &&
       fibers[olds[k]].kind == fs[olds[k]].kind && fibers[olds[k]].dom == fs[olds[k]].dom &&
       fs[olds[k]].sibling == if k + 1 < |olds| then Some(olds[k + 1]) else None)
  }

  /** A walk in progress over the old children is ready for its next step. */
  lemma WalkedFacts(fs: Arena, ds: seq<nat>, w: nat, es: seq<Element>, k: nat,
                    fibers: Arena, deletions: seq<nat>, oldFiber: Option<nat>, prevSibling: Option<nat>)
    requires w < |fs| && OldChainLinked(fs, w)
    requires WalkState(fibers, deletions, oldFiber, prevSibling) == WalkAt(fs, ds, w, es, k)
    ensures StepReady(fs, ds, w, es, k, fibers, deletions, oldFiber, prevSibling)
  {
    var olds := OldChain(fs, w);
    var b := NewArena(fs, w, es, olds, Min(k, |es|));
    if oldFiber.Some? {
      assert fs[olds[k]].sibling == NextOld(olds, k);
      OldArenaKeeps(fs, w, es, olds, 0 < Min(k, |es|), k, b, oldFiber.value);
    }
  }

  /** The loop variables half-way through iteration `k`: the old fiber at `k` has been
      walked and the new fiber for position `k`, if any, is made but not yet attached. */
  ghost predicate Retired(fs: Arena, ds: seq<nat>, w: nat, es: seq<Element>, k: nat,
                          fibers: Arena, deletions: seq<nat>, oldFiber: Option<nat>, prevSibling: Option<nat>,
                          newFiber: Option<Fiber>)
    requires w < |fs|
  {
    var olds := OldChain(fs, w);
    var m := Min(k, |es|);
    fibers == OldArena(fs, w, es, olds, 0 < m, k + 1) + NewArena(fs, w, es, olds, m) &&
    deletions == ds + Unmatched(fs, es, olds, k + 1) &&
    oldFiber == (if k + 1 < |olds| then Some(olds[k + 1]) else None) &&
    prevSibling == (if m > 0 then Some(|fs| + m - 1) else None) &&
    (k < |es| ==> newFiber == Some(NewFiber(fs, w, es, olds, k, k + 1))) &&
    (k >= |es| ==> newFiber.None?)
  }

  /** The first part of one iteration of the loop of `reconcileChildren`: the new fiber
      is made and the old fiber is walked. */
  method RetireStep(ghost fs: Arena, ghost ds: seq<nat>, wipFiber: nat, elements: seq<Element>, index: nat,
                    fibers: Arena, deletions: seq<nat>, oldFiber: Option<nat>, ghost prevSibling: Option<nat>)
    returns (fibers': Arena, deletions': seq<nat>, oldFiber': Option<nat>, newFiber: Option<Fiber>)
    requires wipFiber < |fs|
    requires StepReady(fs, ds, wipFiber, elements, index, fibers, deletions, oldFiber, prevSibling)
    ensures Retired(fs, ds, wipFiber, elements, index, fibers', deletions', oldFiber', prevSibling, newFiber)
  {
    ghost var olds := OldChain(fs, wipFiber);
    ghost var m := Min(index, |elements|);
    var sameType;
    sameType, newFiber := ChooseNewFiber(fs, olds, wipFiber, elements, index, fibers, oldFiber);
    fibers', deletions', oldFiber' := RetireOldFiber(fs, elements, olds, 0 < m, NewArena(fs, wipFiber, elements, olds, m),
                                                     ds, wipFiber, index, fibers, deletions, oldFiber, sameType);
  }

  /** The rest of one iteration: the new fiber is attached. */
  method AttachStep(ghost fs: Arena, ghost ds: seq<nat>, wipFiber: nat, ghost elements: seq<Element>, index: nat,
                    fibers: Arena, ghost deletions: seq<nat>, ghost oldFiber: Option<nat>, prevSibling: Option<nat>,
                    newFiber: Option<Fiber>)
    returns (fibers': Arena, prevSibling': Option<nat>)
    requires wipFiber < |fs|
    requires Retired(fs, ds, wipFiber, elements, index, fibers, deletions, oldFiber, prevSibling, newFiber)
    ensures WalkState(fibers', deletions, oldFiber, prevSibling') == WalkAt(fs, ds, wipFiber, elements, index + 1)
  {
    ghost var olds := OldChain(fs, wipFiber);
    fibers', prevSibling' := AttachNewFiber(fs, elements, olds, index + 1, wipFiber, index, fibers, prevSibling, newFiber);
  }

  /** One iteration of the loop of `reconcileChildren`. */
  method ReconcileStep(ghost fs: Arena, ghost ds: seq<nat>, wipFiber: nat, elements: seq<Element>, index: nat,
                       fibers: Arena, deletions: seq<nat>, oldFiber: Option<nat>, prevSibling: Option<nat>)
    returns (fibers': Arena, deletions': seq<nat>, oldFiber': Option<nat>, prevSibling': Option<nat>)
    requires wipFiber < |fs|
    requires StepReady(fs, ds, wipFiber, elements, index, fibers, deletions, oldFiber, prevSibling)
    ensures WalkState(fibers', deletions', oldFiber', prevSibling') == WalkAt(fs, ds, wipFiber, elements, index + 1)
  {
    var newFiber;
    fibers', deletions', oldFiber', newFiber := RetireStep(fs, ds, wipFiber, elements, index, fibers, deletions, oldFiber, prevSibling);
    fibers', prevSibling' := AttachStep(fs, ds, wipFiber, elements, index, fibers', deletions', oldFiber', prevSibling, newFiber);
  }

  /** The loop of `reconcileChildren`: walks the elements and the old children side by
      side. `steps` counts its iterations. */
  method WalkChildren(fs: Arena, ds: seq<nat>, wipFiber: nat, elements: seq<Element>)
    returns (fibers: Arena, deletions: seq<nat>, ghost steps: nat)
    requires wipFiber < |fs| && OldChainLinked(fs, wipFiber)
    ensures fibers == ReconciledFibers(fs, wipFiber, elements)
    ensures deletions == ReconciledDeletions(fs, ds, wipFiber, elements)
    ensures steps == Max(|elements|, |OldChain(fs, wipFiber)|)
  {
    WalkedStart(fs, ds, wipFiber, elements);
    fibers, deletions := fs, ds;
    var index := 0;
    var oldFiber := AltChild(fs, wipFiber);
    var prevSibling: Option<nat> := None;
    while index < |elements| || oldFiber.Some?
      invariant index <= Max(|elements|, |OldChain(fs, wipFiber)|)
      invariant WalkState(fibers, deletions, oldFiber, prevSibling) == WalkAt(fs, ds, wipFiber, elements, index)
      decreases Max(|elements|, |OldChain(fs, wipFiber)|) - index
    {
      WalkedFacts(fs, ds, wipFiber, elements, index, fibers, deletions, oldFiber, prevSibling);
      fibers, deletions, oldFiber, prevSibling :=
        ReconcileStep(fs, ds, wipFiber, elements, index, fibers, deletions, oldFiber, prevSibling);
      index := index + 1;
    }
    WalkedDone(fs, ds, wipFiber, elements, index, WalkState(fibers, deletions, oldFiber, prevSibling));
    steps := index;
  }

  /** `reconcileChildren(wipFiber, elements)`, with the `deletions` global passed in and out:
      the reconciled arena stays well linked, grows by one fiber per element, and queues
      only fibers of the old arena. */
  method ReconcileChildren(fs: Arena, ds: seq<nat>, wipFiber: nat, elements: seq<Element>)
    returns (fibers: Arena, deletions: seq<nat>, ghost steps: nat)
    requires Valid(fs) && wipFiber < |fs|
    ensures fibers == ReconciledFibers(fs, wipFiber, elements)
    ensures deletions == ReconciledDeletions(fs, ds, wipFiber, elements)
    ensures steps == Max(|elements|, |OldChain(fs, wipFiber)|)
    ensures Valid(fibers) && |fibers| == |fs| + |elements|
    ensures (forall i :: 0 <= i < |ds| ==> ds[i] < |fs|) ==> forall i :: 0 <= i < |deletions| ==> deletions[i] < |fs|
  {
    ValidOldChainLinked(fs, wipFiber);
    fibers, deletions, steps := WalkChildren(fs, ds, wipFiber, elements);
    ReconcilePreservesValid(fs, wipFiber, elements);
    ReconciledOld(fs, wipFiber, elements, wipFiber);
    if forall i :: 0 <= i < |ds| ==> ds[i] < |fs| {
      ReconciledDeletionsInArena(fs, ds, wipFiber, elements);
    }
  }

  // ---------------------------------------------------------------------------
  // What the reconciler guarantees

  /** The old fibers of the reconciled arena, one by one. */
  lemma ReconciledOld(fs: Arena, w: nat, es: seq<Element>, j: nat)
    requires w < |fs| && j < |fs|
    ensures |ReconciledFibers(fs, w, es)| == |fs| + |es|
    ensures ReconciledFibers(fs, w, es)[j] ==
            OldFiberAt(fs, w, es, OldChain(fs, w), 0 < |es|, Max(|es|, |OldChain(fs, w)|), j)
  {
    var olds := OldChain(fs, w);
    OldArenaAt(fs, w, es, olds, 0 < |es|, Max(|es|, |olds|), j);
  }

  /** The new fibers of the reconciled arena, one by one. */
  lemma ReconciledNew(fs: Arena, w: nat, es: seq<Element>, i: nat)
    requires w < |fs| && i < |es|
    ensures |ReconciledFibers(fs, w, es)| == |fs| + |es|
    ensures ReconciledFibers(fs, w, es)[|fs| + i] == NewFiber(fs, w, es, OldChain(fs, w), i, |es|)
  {
    NewArenaAt(fs, w, es, OldChain(fs, w), |es|, i);
  }

  /** From new fiber `i` on, the sibling chain runs through the remaining new fibers in order. */
  lemma NewChain(fs: Arena, w: nat, es: seq<Element>, i: nat)
    requires w < |fs| && i < |es|
    ensures Chain(ReconciledFibers(fs, w, es), Some(|fs| + i)) == seq(|es| - i, k => |fs| + i + k)
  {
    var r := ReconciledFibers(fs, w, es);
    ReconciledNew(fs, w, es, i);
    forall j | |fs| <= j < |fs| + |es|
      ensures r[j].sibling == if j + 1 < |fs| + |es| then Some(j + 1) else None
    {
      ReconciledNew(fs, w, es, j - |fs|);
    }
    ChainOfRun(r, |fs|, |es|, i);
  }

  /** After `reconcileChildren(w, es)` the children of `w` are exactly one new fiber per element,
      in element order, each with the element's type, props and children and with parent `w`.
      With no elements, the child link of `w` is left as it was. */
  lemma ReconcileLinksChildren(fs: Arena, w: nat, es: seq<Element>, i: nat)
    requires w < |fs| && i < |es|
    ensures var r := ReconciledFibers(fs, w, es);
            r[w].child == Some(|fs|) && Chain(r, r[w].child) == seq(|es|, k => |fs| + k)
    ensures var f := ReconciledFibers(fs, w, es)[|fs| + i];
            f.kind == Some(es[i].kind) && f.props == es[i].props && f.children == es[i].children &&
            f.parent == Some(w) && f.child.None?
  {
    ReconciledOld(fs, w, es, w);
    ReconciledNew(fs, w, es, i);
    NewChain(fs, w, es, 0);
  }

  /** With no elements, no new fiber is made and the child link of `w` is not touched. */
  lemma ReconcileNoElements(fs: Arena, w: nat)
    requires w < |fs|
    ensures |ReconciledFibers(fs, w, [])| == |fs|
    ensures ReconciledFibers(fs, w, [])[w].child == fs[w].child
  {
    ReconciledOld(fs, w, [], w);
  }

  /** New fiber `i` is an Update exactly when the old fiber at position `i` has the element's
      type: it then takes over the old fiber's dom node and points back at it. Otherwise it is a
      Placement with no dom node and no alternate. Hooks start empty either way. */
  lemma ReconcileClassifies(fs: Arena, w: nat, es: seq<Element>, i: nat)
    requires w < |fs| && i < |es|
    ensures var f := ReconciledFibers(fs, w, es)[|fs| + i];
            var olds := OldChain(fs, w);
            (f.effectTag == Some(Update) <==> SameType(fs, es, olds, i)) &&
            (f.effectTag == Some(Placement) <==> !SameType(fs, es, olds, i)) &&
            (SameType(fs, es, olds, i) ==> f.alternate == Some(olds[i]) && f.dom == fs[olds[i]].dom) &&
            (!SameType(fs, es, olds, i) ==> f.alternate.None? && f.dom.None?) &&
            f.hooks == []
  {
    ReconciledNew(fs, w, es, i);
  }

  /** `Unmatched` lists the old fibers whose position has no element of the same type. */
  lemma {:induction false} UnmatchedIff(fs: Arena, es: seq<Element>, olds: seq<nat>, k: nat, j: nat)
    ensures j in Unmatched(fs, es, olds, k) <==>
            exists p :: 0 <= p < k && p < |olds| && olds[p] == j && !SameType(fs, es, olds, p)
  {
    if k > 0 {
      UnmatchedIff(fs, es, olds, k - 1, j);
      var p := k - 1;
      if p < |olds| && olds[p] == j && !SameType(fs, es, olds, p) {
        assert j in Unmatched(fs, es, olds, k);
      }
    }
  }

  /** `Unmatched` keeps position order: of two queued fibers, the earlier one comes from
      an earlier position of the old chain. */
  lemma {:induction false} UnmatchedInOrder(fs: Arena, es: seq<Element>, olds: seq<nat>, k: nat, a: nat, b: nat)
    requires a < b < |Unmatched(fs, es, olds, k)|
    ensures var u := Unmatched(fs, es, olds, k);
            exists p, q :: 0 <= p < q < k && q < |olds| && olds[p] == u[a] && olds[q] == u[b] &&
                           !SameType(fs, es, olds, p) && !SameType(fs, es, olds, q)
  {
    var u := Unmatched(fs, es, olds, k);
    var u' := Unmatched(fs, es, olds, k - 1);
    assert u[..|u'|] == u';
    if b < |u'| {
      UnmatchedInOrder(fs, es, olds, k - 1, a, b);
      assert u'[a] == u[a] && u'[b] == u[b];
    } else {
      var q := k - 1;
      assert u[a] == u'[a] && u'[a] in u';
      UnmatchedIff(fs, es, olds, k - 1, u[a]);
      var p :| 0 <= p < k - 1 && p < |olds| && olds[p] == u[a] && !SameType(fs, es, olds, p);
      assert olds[q] == u[b];
    }
  }

  /** `reconcileChildren` only appends to the deletion list, and queues in position order. */
  lemma DeletionsAppendInOrder(fs: Arena, ds: seq<nat>, w: nat, es: seq<Element>, a: nat, b: nat)
    requires w < |fs|
    ensures ds <= ReconciledDeletions(fs, ds, w, es)
    ensures var olds := OldChain(fs, w);
            var d := ReconciledDeletions(fs, ds, w, es);
            |ds| <= a < b < |d| ==>
              exists p, q :: 0 <= p < q < |olds| && olds[p] == d[a] && olds[q] == d[b]
  {
    var olds := OldChain(fs, w);
    var d := ReconciledDeletions(fs, ds, w, es);
    var u := Unmatched(fs, es, olds, Max(|es|, |olds|));
    assert d == ds + u;
    if |ds| <= a < b < |d| {
      UnmatchedInOrder(fs, es, olds, Max(|es|, |olds|), a - |ds|, b - |ds|);
      assert d[a] == u[a - |ds|] && d[b] == u[b - |ds|];
    }
  }

  /** An old fiber is tagged Deletion by `reconcileChildren(w, es)` exactly when it is an old
      child of `w` at a position whose element is missing or of another type, and exactly
      those fibers are appended to the deletion list. Apart from that tag and the child link
      of `w`, the old fibers are left as they were. */
  lemma ReconcileDeletes(fs: Arena, ds: seq<nat>, w: nat, es: seq<Element>, j: nat)
    requires Valid(fs) && w < |fs| && j < |fs|
    ensures var olds := OldChain(fs, w);
            var r := ReconciledFibers(fs, w, es);
            var gone := exists p :: 0 <= p < |olds| && olds[p] == j && !SameType(fs, es, olds, p);
            (j in ReconciledDeletions(fs, ds, w, es) <==> j in ds || gone) &&
            (gone ==> r[j].effectTag == Some(Deletion)) &&
            (!gone ==> r[j].effectTag == fs[j].effectTag) &&
            (j != w ==> r[j].child == fs[j].child) &&
            r[j] == fs[j].(child := r[j].child, effectTag := r[j].effectTag)
  {
    var olds := OldChain(fs, w);
    ReconciledOld(fs, w, es, j);
    UnmatchedIff(fs, es, olds, Max(|es|, |olds|), j);
  }

  /** Every old child of `w` is either taken over by the new fiber at its position, or tagged
      Deletion and queued; never both. */
  lemma OldFiberReusedOrDeleted(fs: Arena, ds: seq<nat>, w: nat, es: seq<Element>, p: nat)
    requires Valid(fs) && w < |fs| && p < |OldChain(fs, w)|
    ensures var olds := OldChain(fs, w);
            var r := ReconciledFibers(fs, w, es);
            olds[p] < |fs| &&
            (SameType(fs, es, olds, p) ==> r[|fs| + p].alternate == Some(olds[p])) &&
            (!SameType(fs, es, olds, p) ==> r[olds[p]].effectTag == Some(Deletion) &&
                                            olds[p] in ReconciledDeletions(fs, ds, w, es))
  {
    var olds := OldChain(fs, w);
    if SameType(fs, es, olds, p) {
      ReconciledNew(fs, w, es, p);
    } else {
      ReconciledOld(fs, w, es, olds[p]);
      UnmatchedIff(fs, es, olds, Max(|es|, |olds|), olds[p]);
    }
  }

  /** With every position below `k` matched, no old fiber is unmatched. */
  lemma {:induction false} AllMatchedNoneUnmatched(fs: Arena, es: seq<Element>, olds: seq<nat>, k: nat)
    requires forall p :: 0 <= p < k && p < |olds| ==> SameType(fs, es, olds, p)
    ensures Unmatched(fs, es, olds, k) == []
  {
    if k > 0 {
      AllMatchedNoneUnmatched(fs, es, olds, k - 1);
    }
  }

  /** Re-rendering the same shape: when the elements match the old children one for one,
      in number and in type, nothing is tagged Deletion or queued, every old fiber other
      than `w` is kept as it was, and every new fiber is an Update of the old fiber at its
      position that takes over its node and diffs against its props. */
  lemma SameShapeRerender(fs: Arena, ds: seq<nat>, w: nat, es: seq<Element>)
    requires w < |fs| && |es| == |OldChain(fs, w)|
    requires forall i :: 0 <= i < |es| ==> SameType(fs, es, OldChain(fs, w), i)
    ensures ReconciledDeletions(fs, ds, w, es) == ds
    ensures var r := ReconciledFibers(fs, w, es);
            |r| == |fs| + |es| && forall j :: 0 <= j < |fs| && j != w ==> r[j] == fs[j]
    ensures var r := ReconciledFibers(fs, w, es);
            var olds := OldChain(fs, w);
            forall i :: 0 <= i < |es| ==>
              olds[i] < |fs| && r[|fs| + i].effectTag == Some(Update) && r[|fs| + i].alternate == Some(olds[i]) &&
              r[|fs| + i].dom == fs[olds[i]].dom && PrevProps(r, |fs| + i) == fs[olds[i]].props
  {
    var olds := OldChain(fs, w);
    var r := ReconciledFibers(fs, w, es);
    AllMatchedNoneUnmatched(fs, es, olds, Max(|es|, |olds|));
    forall j | 0 <= j < |fs| && j != w ensures r[j] == fs[j] {
      ReconciledOld(fs, w, es, j);
    }
    forall i | 0 <= i < |es|
      ensures olds[i] < |fs| && r[|fs| + i].effectTag == Some(Update) && r[|fs| + i].alternate == Some(olds[i]) &&
              r[|fs| + i].dom == fs[olds[i]].dom && PrevProps(r, |fs| + i) == fs[olds[i]].props
    {
      ReconciledNew(fs, w, es, i);
      ReconciledOld(fs, w, es, olds[i]);
    }
  }

  /** An old fiber keeps its links in order through reconciling. */
  lemma ReconciledOldLinksOk(fs: Arena, w: nat, es: seq<Element>, j: nat)
    requires Valid(fs) && w < |fs| && j < |fs|
    ensures j < |ReconciledFibers(fs, w, es)| && LinksOk(ReconciledFibers(fs, w, es), j)
  {
    assert LinksOk(fs, j);
    ReconciledOld(fs, w, es, w);
    ReconciledOld(fs, w, es, j);
  }

  /** A new fiber's links are in order. */
  lemma ReconciledNewLinksOk(fs: Arena, w: nat, es: seq<Element>, i: nat)
    requires Valid(fs) && w < |fs| && i < |es|
    ensures |fs| + i < |ReconciledFibers(fs, w, es)| && LinksOk(ReconciledFibers(fs, w, es), |fs| + i)
  {
    ReconciledNew(fs, w, es, i);
  }

  /** Reconciling keeps the arena well linked, so later walks over it terminate. */
  lemma ReconcilePreservesValid(fs: Arena, w: nat, es: seq<Element>)
    requires Valid(fs) && w < |fs|
    ensures Valid(ReconciledFibers(fs, w, es))
  {
    var r := ReconciledFibers(fs, w, es);
    ReconciledOld(fs, w, es, w);
    forall j | 0 <= j < |r| ensures LinksOk(r, j) {
      if j < |fs| {
        ReconciledOldLinksOk(fs, w, es, j);
      } else {
        ReconciledNewLinksOk(fs, w, es, j - |fs|);
      }
    }
  }

  /** Matching is by position only, there are no keys: reconciling `[p]` against the old
      children `[div, p]` deletes both old fibers and places a fresh `p`, instead of keeping
      the old `p`. */
  lemma PositionalNoKeyMatching()
    ensures var div := Element(Host("div"), [], []);
            var p := Element(Host("p"), [], []);
            var fs := [Fiber(None, [], [div, p], Some(0), None, Some(1), None, None, None, []),
                       Fiber(Some(Host("div")), [], [], Some(1), Some(0), None, Some(2), None, None, []),
                       Fiber(Some(Host("p")), [], [], Some(2), Some(0), None, None, None, None, []),
                       Fiber(None, [], [p], Some(0), None, None, None, Some(0), None, [])];
            var r := ReconciledFibers(fs, 3, [p]);
            Valid(fs) &&
            ReconciledDeletions(fs, [], 3, [p]) == [1, 2] &&
            r[1].effectTag == Some(Deletion) && r[2].effectTag == Some(Deletion) &&
            r[4].effectTag == Some(Placement) && r[4].kind == Some(Host("p")) && r[4].dom.None?
  {
    var div := Element(Host("div"), [], []);
    var p := Element(Host("p"), [], []);
    var fs := [Fiber(None, [], [div, p], Some(0), None, Some(1), None, None, None, []),
               Fiber(Some(Host("div")), [], [], Some(1), Some(0), None, Some(2), None, None, []),
               Fiber(Some(Host("p")), [], [], Some(2), Some(0), None, None, None, None, []),
               Fiber(None, [], [p], Some(0), None, None, None, Some(0), None, [])];
    assert Valid(fs) by {
      forall i | 0 <= i < |fs| ensures LinksOk(fs, i) {
      }
    }
    assert Chain(fs, Some(2)) == [2];
    assert OldChain(fs, 3) == [1, 2];
    assert "div" != "p";
    assert !SameType(fs, [p], [1, 2], 0);
    OldFiberReusedOrDeleted(fs, [], 3, [p], 0);
    OldFiberReusedOrDeleted(fs, [], 3, [p], 1);
    ReconcileClassifies(fs, 3, [p], 0);
    ReconcileLinksChildren(fs, 3, [p], 0);
  }

  /** The unmatched old fibers are fibers of the arena. */
  lemma {:induction false} UnmatchedInArena(fs: Arena, es: seq<Element>, olds: seq<nat>, k: nat)
    requires forall i :: 0 <= i < |olds| ==> olds[i] < |fs|
    ensures forall i :: 0 <= i < |Unmatched(fs, es, olds, k)| ==> Unmatched(fs, es, olds, k)[i] < |fs|
  {
    if k > 0 {
      UnmatchedInArena(fs, es, olds, k - 1);
    }
  }

  /** So every entry of the deletion list after reconciling is an old fiber, or was already there. */
  lemma ReconciledDeletionsInArena(fs: Arena, ds: seq<nat>, w: nat, es: seq<Element>)
    requires w < |fs| && forall i :: 0 <= i < |ds| ==> ds[i] < |fs|
    ensures forall i :: 0 <= i < |ReconciledDeletions(fs, ds, w, es)| ==> ReconciledDeletions(fs, ds, w, es)[i] < |fs|
  {
    var olds := OldChain(fs, w);
    UnmatchedInArena(fs, es, olds, Max(|es|, |olds|));
  }

  // ---------------------------------------------------------------------------
  // Steps shared by the engines

  /** `fiber.alternate?.props`. An Update fiber of a valid arena has an alternate. */
  function PrevProps(fs: Arena, f: nat): Props
    requires f < |fs|
  {
    match fs[f].alternate
    case Some(a) => if a < |fs| then fs[a].props else []
    case None => []
  }

  /** The arena after `if (!fiber.dom) fiber.dom = createDom(fiber)`, the new node being `node`. */
  function WithDom(fs: Arena, f: nat, node: NodeId): Arena
    requires f < |fs|
  {
    if fs[f].dom.Some? then fs else fs[f := fs[f].(dom := Some(node))]
  }

  /** The host calls of that step. */
  function DomOps(fs: Arena, f: nat, node: NodeId): seq<HostOp>
    requires f < |fs|
  {
    if fs[f].dom.Some? then [] else CreateDom(node, fs[f].kind, fs[f].props)
  }

  /** `if (!fiber.dom) fiber.dom = createDom(fiber)`, the new node being `node`; `next` is the
      number the node after it gets. */
  method EnsureDom(fs: Arena, f: nat, node: NodeId) returns (r: Arena, ops: seq<HostOp>, next: NodeId)
    requires Valid(fs) && f < |fs|
    ensures r == WithDom(fs, f, node) && ops == DomOps(fs, f, node)
    ensures next == if fs[f].dom.Some? then node else node + 1
    ensures Valid(r) && |r| == |fs| && r[f].dom.Some?
  {
    r, ops, next := fs, [], node;
    if fs[f].dom.None? {
      ops := CreateDom(node, fs[f].kind, fs[f].props);
      assert LinksOk(fs, f);
      ReplaceKeepsValid(fs, f, fs[f].(dom := Some(node)));
      r := fs[f := fs[f].(dom := Some(node))];
      next := node + 1;
    }
  }
}
