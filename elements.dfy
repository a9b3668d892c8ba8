/**
 * Elements: the immutable description nodes built by `createElement`
 * (src/j-react/element.ts; src/index.js and src/index.ts hold the same code).
 *
 * A JavaScript props object is an ordered list of key/value entries (the order
 * is that of `Object.keys`). The structural `children` entry is kept apart from
 * the other props, in `Element.children`; `Dom.ChildrenKeyIsInert` shows that
 * the prop diff never looks at a `children` key, so nothing is lost by the split.
 */
module Elements {
  import opened Options

  /** Prop values are opaque tokens compared with `===`. `Undefined` is what reading
      a missing key yields; `Fn` stands for a function value such as an event handler. */
  datatype Value = Undefined | Str(s: string) | Num(n: int) | Bool(b: bool) | Fn(id: nat)

  /** An element type is a host tag or a reference to a component function. */
  datatype ElemType = Host(tag: string) | Component(fn: nat)

  /** The tag that marks a text leaf. */
  const TextTag: string := "TEXT_ELEMENT"

  datatype Prop = Prop(key: string, value: Value)

  type Props = seq<Prop>

  datatype Element = Element(kind: ElemType, props: Props, children: seq<Element>)

  /** An argument in the variadic children of `createElement`: an object (an element)
      or any other value, which becomes a text leaf. */
  datatype Child = ElementChild(element: Element) | PrimitiveChild(value: Value)

  /** `Object.keys(ps)`. */
  function Keys(ps: Props): seq<string>
  {
    if ps == [] then [] else [ps[0].key] + Keys(ps[1..])
  }

  /** `ps[key]` when the key is present. */
  function Lookup(ps: Props, key: string): Option<Value>
  {
    if ps == [] then None
    else if ps[0].key == key then Some(ps[0].value)
    else Lookup(ps[1..], key)
  }

  /** `key in ps`. */
  predicate HasKey(ps: Props, key: string)
  {
    Lookup(ps, key).Some?
  }

  /** `ps[key]`, which is `undefined` for a missing key. */
  function Get(ps: Props, key: string): Value
  {
    match Lookup(ps, key)
    case Some(v) => v
    case None => Undefined
  }

  /** The keys of a JavaScript object are unique. */
  predicate UniqueKeys(ps: Props)
  {
    forall i, j :: 0 <= i < j < |ps| ==> ps[i].key != ps[j].key
  }

  lemma {:induction false} KeysAt(ps: Props)
    ensures |Keys(ps)| == |ps|
    ensures forall i :: 0 <= i < |ps| ==> Keys(ps)[i] == ps[i].key
  {
    if ps != [] {
      KeysAt(ps[1..]);
    }
  }

  /** A key is present exactly when it is one of `Object.keys`. */
  lemma {:induction false} HasKeyIffInKeys(ps: Props, key: string)
    ensures HasKey(ps, key) <==> key in Keys(ps)
  {
    if ps != [] {
      HasKeyIffInKeys(ps[1..], key);
    }
  }

  /** With unique keys, looking up the key of an entry yields that entry's value. */
  lemma {:induction false} LookupEntry(ps: Props, i: nat)
    requires UniqueKeys(ps) && i < |ps|
    ensures Lookup(ps, ps[i].key) == Some(ps[i].value)
  {
    if i > 0 {
      assert ps[0].key != ps[i].key;
      assert UniqueKeys(ps[1..]) by {
        forall a, b | 0 <= a < b < |ps[1..]| ensures ps[1..][a].key != ps[1..][b].key {
          assert ps[1..][a] == ps[a + 1] && ps[1..][b] == ps[b + 1];
        }
      }
      LookupEntry(ps[1..], i - 1);
    }
  }

  /** Overwriting the value of one entry changes the lookup of that key only. */
  lemma {:induction false} LookupAfterUpdate(ps: Props, i: nat, v: Value, key: string)
    requires UniqueKeys(ps) && i < |ps|
    ensures Lookup(ps[i := Prop(ps[i].key, v)], key)
         == if key == ps[i].key then Some(v) else Lookup(ps, key)
  {
    var qs := ps[i := Prop(ps[i].key, v)];
    if i == 0 {
      assert qs[1..] == ps[1..];
    } else {
      assert qs[0] == ps[0];
      assert qs[1..] == ps[1..][i - 1 := Prop(ps[i].key, v)];
      assert ps[0].key != ps[i].key;
      assert UniqueKeys(ps[1..]) by {
        forall a, b | 0 <= a < b < |ps[1..]| ensures ps[1..][a].key != ps[1..][b].key {
          assert ps[1..][a] == ps[a + 1] && ps[1..][b] == ps[b + 1];
        }
      }
      LookupAfterUpdate(ps[1..], i - 1, v, key);
    }
  }

  /** The entries of `ps` whose key is not `key`, in order: the copy made by
      `{...props, key: ...}` before `key` is written. */
  function WithoutKey(ps: Props, key: string): (r: Props)
    ensures !HasKey(r, key)
    ensures forall k :: k != key ==> Lookup(r, k) == Lookup(ps, k)
    ensures |r| <= |ps|
  {
    if ps == [] then []
    else if ps[0].key == key then WithoutKey(ps[1..], key)
    else [ps[0]] + WithoutKey(ps[1..], key)
  }

  /** `createTextElement(text)`. */
  function CreateTextElement(text: Value): Element
  {
    Element(Host(TextTag), [Prop("nodeValue", text)], [])
  }

  /** One entry of `children.map(...)`: objects pass through, anything else is wrapped. */
  function WrapChild(c: Child): Element
  {
    match c
    case ElementChild(e) => e
    case PrimitiveChild(v) => CreateTextElement(v)
  }

  /** `createElement(type, props, ...children)`; `kind` is the source's `type`. A `null` props argument is the empty list. */
  function CreateElement(kind: ElemType, props: Props, children: seq<Child>): (e: Element)
    ensures e.kind == kind
    ensures |e.children| == |children|
    ensures forall i :: 0 <= i < |children| ==>
              (children[i].ElementChild? ==> e.children[i] == children[i].element) &&
              (children[i].PrimitiveChild? ==> e.children[i] == CreateTextElement(children[i].value))
    ensures !HasKey(e.props, "children")
    ensures forall k :: k != "children" ==> Lookup(e.props, k) == Lookup(props, k)
  {
    Element(kind, WithoutKey(props, "children"), seq(|children|, i requires 0 <= i < |children| => WrapChild(children[i])))
  }

  /** Every text leaf that `createElement` makes has no children and carries the
      wrapped value as its only prop, `nodeValue`. */
  lemma TextChildrenAreLeaves(kind: ElemType, props: Props, children: seq<Child>, i: nat)
    requires i < |children| && children[i].PrimitiveChild?
    ensures var t := CreateElement(kind, props, children).children[i];
            t.kind == Host(TextTag) && t.children == [] &&
            Lookup(t.props, "nodeValue") == Some(children[i].value) && Keys(t.props) == ["nodeValue"]
  {
  }
}
