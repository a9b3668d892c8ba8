/**
 * The prop diff of src/j-react/dom.ts (src/index.js:39-85 is the same code), and
 * the interface to the host: instead of calling the browser, every host call is
 * one `HostOp` record appended to a mutation log.
 */
module Dom {
  import opened Options
  import opened Elements

  type NodeId = nat

  /** One call into the host: create a node, assign a property, add or remove a
      listener, append or remove a child. Clearing a property is `SetProp(.., Str(""))`. */
  datatype HostOp =
    | CreateElementNode(node: NodeId, kind: Option<ElemType>)
    | CreateTextNode(node: NodeId)
    | SetProp(node: NodeId, key: string, value: Value)
    | AddListener(node: NodeId, event: string, handler: Value)
    | RemoveListener(node: NodeId, event: string, handler: Value)
    | AppendChild(parent: NodeId, child: NodeId)
    | RemoveChild(parent: NodeId, child: NodeId)

  predicate StartsWith(s: string, prefix: string)
  {
    |prefix| <= |s| && s[..|prefix|] == prefix
  }

  /** `isEvent`: keys that name an event handler. */
  predicate IsEvent(key: string)
  {
    StartsWith(key, "on")
  }

  /** `isProperty`: every other key except the structural `children`. */
  predicate IsProperty(key: string)
  {
    key != "children" && !IsEvent(key)
  }

  /** `isNew(prev, next)(key)`: `prev[key] !== next[key]`. */
  predicate IsNew(prev: Props, next: Props, key: string)
  {
    Get(prev, key) != Get(next, key)
  }

  /** `isGone(prev, next)(key)`: `!(key in next)`. */
  predicate IsGone(prev: Props, next: Props, key: string)
  {
    !HasKey(next, key)
  }

  /** `toLowerCase` on the ASCII letters. */
  function LowerChar(c: char): char
  {
    if 'A' <= c <= 'Z' then (c as int + 32) as char else c
  }

  function Lower(s: string): (r: string)
    ensures |r| == |s|
  {
    if s == [] then [] else [LowerChar(s[0])] + Lower(s[1..])
  }

  /** `name.toLowerCase().substring(2)`; `substring` past the end yields "". */
  function EventName(key: string): string
  {
    var l := Lower(key);
    if |l| >= 2 then l[2..] else []
  }

  /** The four passes of `updateDom`, in the order they run. */
  datatype Pass = RemoveStale | ClearGone | SetChanged | AddNew

  /** What one pass does for one key: its `filter` conditions and its `forEach` body. */
  function Emit(pass: Pass, node: NodeId, prev: Props, next: Props, key: string): seq<HostOp>
  {
    match pass
    case RemoveStale =>
      if IsEvent(key) && (!HasKey(next, key) || IsNew(prev, next, key))
      then [RemoveListener(node, EventName(key), Get(prev, key))] else []
    case ClearGone =>
      if IsProperty(key) && IsGone(prev, next, key) then [SetProp(node, key, Str(""))] else []
    case SetChanged =>
      if IsProperty(key) && IsNew(prev, next, key) then [SetProp(node, key, Get(next, key))] else []
    case AddNew =>
      if IsEvent(key) && IsNew(prev, next, key)
      then [AddListener(node, EventName(key), Get(next, key))] else []
  }

  /** One pass over a list of keys, in order. */
  function RunPass(pass: Pass, node: NodeId, prev: Props, next: Props, keys: seq<string>): seq<HostOp>
  {
    if keys == [] then []
    else Emit(pass, node, prev, next, keys[0]) + RunPass(pass, node, prev, next, keys[1..])
  }

  /** `updateDom(dom, prevProps, nextProps)`: the host calls it makes, in order. The first two
      passes walk the keys of `prev`, the last two the keys of `next`. */
  function UpdateDom(node: NodeId, prev: Props, next: Props): seq<HostOp>
  {
    RunPass(RemoveStale, node, prev, next, Keys(prev)) +
    RunPass(ClearGone, node, prev, next, Keys(prev)) +
    RunPass(SetChanged, node, prev, next, Keys(next)) +
    RunPass(AddNew, node, prev, next, Keys(next))
  }

  /** `createDom(fiber)` on a fresh node id: a text node for `TEXT_ELEMENT`, an element
      node otherwise, then the diff of the fiber's props against `{}`. */
  function CreateDom(node: NodeId, kind: Option<ElemType>, props: Props): seq<HostOp>
  {
    [if kind == Some(Host(TextTag)) then CreateTextNode(node) else CreateElementNode(node, kind)]
    + UpdateDom(node, [], props)
  }

  // ---------------------------------------------------------------------------
  // Key classes

  /** Every key is in exactly one class: `children`, an event key or a property key. */
  lemma KeyClasses(key: string)
    ensures key == "children" || IsEvent(key) || IsProperty(key)
    ensures !(key == "children" && IsEvent(key))
    ensures !(IsEvent(key) && IsProperty(key))
    ensures !(key == "children" && IsProperty(key))
  {
    if key == "children" {
      assert key[..2] == "ch";
    }
  }

  /** The event name of an `on...` key is the rest of the key, lower-cased. */
  lemma {:induction false} EventNameOfEventKey(key: string)
    requires IsEvent(key)
    ensures |EventName(key)| == |key| - 2
    ensures forall i :: 0 <= i < |key| - 2 ==> EventName(key)[i] == LowerChar(key[i + 2])
  {
    LowerAt(key);
  }

  lemma {:induction false} LowerAt(s: string)
    ensures forall i :: 0 <= i < |s| ==> Lower(s)[i] == LowerChar(s[i])
  {
    if s != [] {
      LowerAt(s[1..]);
    }
  }

  // ---------------------------------------------------------------------------
  // Generic facts about a pass

  lemma {:induction false} RunPassMembership(pass: Pass, node: NodeId, prev: Props, next: Props, keys: seq<string>, op: HostOp)
    ensures op in RunPass(pass, node, prev, next, keys)
        <==> exists i :: 0 <= i < |keys| && op in Emit(pass, node, prev, next, keys[i])
  {
    if keys != [] {
      RunPassMembership(pass, node, prev, next, keys[1..], op);
      if op in Emit(pass, node, prev, next, keys[0]) {
        assert 0 < |keys| && op in Emit(pass, node, prev, next, keys[0]);
      }
      if exists i :: 0 <= i < |keys| && op in Emit(pass, node, prev, next, keys[i]) {
        var i :| 0 <= i < |keys| && op in Emit(pass, node, prev, next, keys[i]);
        if i > 0 {
          assert keys[1..][i - 1] == keys[i];
        }
      }
    }
  }

  lemma {:induction false} RunPassSilent(pass: Pass, node: NodeId, prev: Props, next: Props, keys: seq<string>)
    requires forall i :: 0 <= i < |keys| ==> Emit(pass, node, prev, next, keys[i]) == []
    ensures RunPass(pass, node, prev, next, keys) == []
  {
    if keys != [] {
      assert Emit(pass, node, prev, next, keys[0]) == [];
      RunPassSilent(pass, node, prev, next, keys[1..]);
    }
  }

  lemma {:induction false} RunPassSingle(pass: Pass, node: NodeId, prev: Props, next: Props, keys: seq<string>, j: nat)
    requires j < |keys|
    requires forall i :: 0 <= i < |keys| && i != j ==> Emit(pass, node, prev, next, keys[i]) == []
    ensures RunPass(pass, node, prev, next, keys) == Emit(pass, node, prev, next, keys[j])
  {
    if j == 0 {
      RunPassSilent(pass, node, prev, next, keys[1..]);
    } else {
      assert Emit(pass, node, prev, next, keys[0]) == [];
      RunPassSingle(pass, node, prev, next, keys[1..], j - 1);
    }
  }

  // ---------------------------------------------------------------------------
  // The four passes, one by one

  /** Pass 1 removes the listener of every previous event key whose value is gone or changed. */
  lemma RemovesStaleListeners(node: NodeId, prev: Props, next: Props, op: HostOp)
    ensures op in RunPass(RemoveStale, node, prev, next, Keys(prev))
        <==> exists k :: k in Keys(prev) && IsEvent(k) && (!HasKey(next, k) || Get(prev, k) != Get(next, k)) &&
                         op == RemoveListener(node, EventName(k), Get(prev, k))
  {
    RunPassMembership(RemoveStale, node, prev, next, Keys(prev), op);
  }

  /** Pass 2 sets to "" every previous property key that `next` lacks. */
  lemma ClearsGoneProperties(node: NodeId, prev: Props, next: Props, op: HostOp)
    ensures op in RunPass(ClearGone, node, prev, next, Keys(prev))
        <==> exists k :: k in Keys(prev) && IsProperty(k) && !HasKey(next, k) && op == SetProp(node, k, Str(""))
  {
    RunPassMembership(ClearGone, node, prev, next, Keys(prev), op);
  }

  /** Pass 3 writes every property key of `next` whose value differs from `prev`'s;
      a key missing from `prev` reads as `undefined` and so counts as changed. */
  lemma SetsChangedProperties(node: NodeId, prev: Props, next: Props, op: HostOp)
    ensures op in RunPass(SetChanged, node, prev, next, Keys(next))
        <==> exists k :: k in Keys(next) && IsProperty(k) && Get(prev, k) != Get(next, k) &&
                         op == SetProp(node, k, Get(next, k))
  {
    RunPassMembership(SetChanged, node, prev, next, Keys(next), op);
  }

  /** Pass 4 adds a listener for every event key of `next` whose value differs from `prev`'s. */
  lemma AddsNewListeners(node: NodeId, prev: Props, next: Props, op: HostOp)
    ensures op in RunPass(AddNew, node, prev, next, Keys(next))
        <==> exists k :: k in Keys(next) && IsEvent(k) && Get(prev, k) != Get(next, k) &&
                         op == AddListener(node, EventName(k), Get(next, k))
  {
    RunPassMembership(AddNew, node, prev, next, Keys(next), op);
  }

  // ---------------------------------------------------------------------------
  // Properties of the whole diff

  /** The diff never writes a `children` property and never derives a listener from it. */
  lemma ChildrenNeverApplied(node: NodeId, prev: Props, next: Props, op: HostOp)
    requires op in UpdateDom(node, prev, next)
    ensures op.SetProp? ==> op.key != "children"
    ensures op.AddListener? || op.RemoveListener? || op.SetProp?
  {
    var p1 := RunPass(RemoveStale, node, prev, next, Keys(prev));
    var p2 := RunPass(ClearGone, node, prev, next, Keys(prev));
    var p3 := RunPass(SetChanged, node, prev, next, Keys(next));
    var p4 := RunPass(AddNew, node, prev, next, Keys(next));
    assert op in p1 || op in p2 || op in p3 || op in p4;
    RemovesStaleListeners(node, prev, next, op);
    ClearsGoneProperties(node, prev, next, op);
    SetsChangedProperties(node, prev, next, op);
    AddsNewListeners(node, prev, next, op);
  }

  /** Diffing a props list against itself makes no host call at all. */
  lemma IdenticalPropsNoMutation(node: NodeId, ps: Props)
    ensures UpdateDom(node, ps, ps) == []
  {
    forall pass: Pass, i | 0 <= i < |Keys(ps)| ensures Emit(pass, node, ps, ps, Keys(ps)[i]) == [] {
      HasKeyIffInKeys(ps, Keys(ps)[i]);
    }
    RunPassSilent(RemoveStale, node, ps, ps, Keys(ps));
    RunPassSilent(ClearGone, node, ps, ps, Keys(ps));
    RunPassSilent(SetChanged, node, ps, ps, Keys(ps));
    RunPassSilent(AddNew, node, ps, ps, Keys(ps));
  }

  /** Changing only one handler's value makes exactly one remove and one add for
      that event, and no property write. */
  lemma EventRebinding(node: NodeId, prev: Props, i: nat, handler: Value)
    requires UniqueKeys(prev) && i < |prev|
    requires IsEvent(prev[i].key) && handler != prev[i].value
    ensures UpdateDom(node, prev, prev[i := Prop(prev[i].key, handler)])
         == [RemoveListener(node, EventName(prev[i].key), prev[i].value),
             AddListener(node, EventName(prev[i].key), handler)]
  {
    var key := prev[i].key;
    var next := prev[i := Prop(key, handler)];
    KeysAt(prev);
    KeysAt(next);
    assert Keys(next) == Keys(prev);
    var ks := Keys(prev);
    LookupEntry(prev, i);
    forall k ensures Get(next, k) == if k == key then handler else Get(prev, k) {
      LookupAfterUpdate(prev, i, handler, k);
    }
    forall j | 0 <= j < |ks| ensures HasKey(next, ks[j]) {
      HasKeyIffInKeys(next, ks[j]);
    }
    forall pass: Pass, j | 0 <= j < |ks| && j != i ensures Emit(pass, node, prev, next, ks[j]) == [] {
      assert ks[j] != key;
    }
    RunPassSingle(RemoveStale, node, prev, next, ks, i);
    RunPassSingle(ClearGone, node, prev, next, ks, i);
    RunPassSingle(SetChanged, node, prev, next, ks, i);
    RunPassSingle(AddNew, node, prev, next, ks, i);
  }

  /** Against `{}`, the two passes over the previous keys have nothing to walk. */
  lemma DiffAgainstEmpty(node: NodeId, props: Props)
    ensures UpdateDom(node, [], props)
         == RunPass(SetChanged, node, [], props, Keys(props)) + RunPass(AddNew, node, [], props, Keys(props))
  {
    assert Keys([]) == [];
  }

  /** `createDom` diffs against `{}`: after the node is created, nothing is removed or
      cleared, and exactly the defined non-`children` props are written or listened to. */
  lemma CreateDomAppliesAllProps(node: NodeId, kind: Option<ElemType>, props: Props, op: HostOp)
    ensures CreateDom(node, kind, props)[0] == (if kind == Some(Host(TextTag)) then CreateTextNode(node) else CreateElementNode(node, kind))
    ensures op in CreateDom(node, kind, props)[1..] ==> !op.RemoveListener?
    ensures op in CreateDom(node, kind, props)[1..] && op.SetProp?
        <==> exists k :: k in Keys(props) && IsProperty(k) && Get(props, k) != Undefined && op == SetProp(node, k, Get(props, k))
    ensures op in CreateDom(node, kind, props)[1..] && op.AddListener?
        <==> exists k :: k in Keys(props) && IsEvent(k) && Get(props, k) != Undefined && op == AddListener(node, EventName(k), Get(props, k))
  {
    var ops := CreateDom(node, kind, props);
    var p3 := RunPass(SetChanged, node, [], props, Keys(props));
    var p4 := RunPass(AddNew, node, [], props, Keys(props));
    assert ops[1..] == UpdateDom(node, [], props);
    DiffAgainstEmpty(node, props);
    assert op in ops[1..] <==> op in p3 || op in p4;
    SetsChangedProperties(node, [], props, op);
    AddsNewListeners(node, [], props, op);
    assert Get([], "") == Undefined;
  }

  /** The diff ignores `children` entries, so the model may keep children outside the props. */
  lemma ChildrenKeyIsInert(node: NodeId, prev: Props, next: Props)
    ensures UpdateDom(node, prev, next) == UpdateDom(node, WithoutKey(prev, "children"), WithoutKey(next, "children"))
  {
    var prev' := WithoutKey(prev, "children");
    var next' := WithoutKey(next, "children");
    forall pass: Pass, k ensures Emit(pass, node, prev, next, k) == Emit(pass, node, prev', next', k) {
      EmitIgnoresChildren(pass, node, prev, next, k);
    }
    PassIgnoresChildren(node, prev, next, prev', next', prev);
    PassIgnoresChildren(node, prev, next, prev', next', next);
  }

  lemma EmitIgnoresChildren(pass: Pass, node: NodeId, prev: Props, next: Props, k: string)
    ensures Emit(pass, node, prev, next, k)
         == Emit(pass, node, WithoutKey(prev, "children"), WithoutKey(next, "children"), k)
  {
    KeyClasses(k);
    if k != "children" {
      assert Lookup(WithoutKey(prev, "children"), k) == Lookup(prev, k);
      assert Lookup(WithoutKey(next, "children"), k) == Lookup(next, k);
    }
  }

  lemma {:induction false} PassIgnoresChildren(node: NodeId, prev: Props, next: Props, prev': Props, next': Props, ps: Props)
    requires forall pass: Pass, k :: Emit(pass, node, prev, next, k) == Emit(pass, node, prev', next', k)
    ensures forall pass: Pass :: RunPass(pass, node, prev, next, Keys(ps))
                              == RunPass(pass, node, prev', next', Keys(WithoutKey(ps, "children")))
  {
    if ps != [] {
      PassIgnoresChildren(node, prev, next, prev', next', ps[1..]);
      forall pass: Pass ensures RunPass(pass, node, prev, next, Keys(ps))
                             == RunPass(pass, node, prev', next', Keys(WithoutKey(ps, "children"))) {
        assert Keys(ps)[1..] == Keys(ps[1..]);
        if ps[0].key == "children" {
          KeyClasses("children");
          assert Emit(pass, node, prev, next, "children") == [];
        } else {
          assert Keys(WithoutKey(ps, "children"))[1..] == Keys(WithoutKey(ps[1..], "children"));
        }
      }
    }
  }
}
