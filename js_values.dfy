/**
  The JavaScript values the utilities in src/core-js work on.

  Primitives are values; every object (array, plain object, Date, RegExp,
  function, object without a prototype) lives in an explicit heap, a sequence
  of objects addressed by `Ref(addr)`. Object identity (`===` on objects) is
  equality of addresses, and allocating a new object appends to the heap.
 */
module JsValues {

  /** What `getTime()` of a Date gives: whole milliseconds, or NaN for an invalid Date. */
  datatype Time = Ms(ms: int) | InvalidTime

  /** The kind of a non-array object. */
  datatype Kind =
    | Plain                               // an ordinary object whose prototype chain reaches Object.prototype
    | Func                                // a function object: `typeof` gives "function"
    | Date(time: Time)
    | RegExp(source: string, flags: string)
    | NullProto                           // made by Object.create(null): not `instanceof Object`

  /**
    An object in the heap: an array with its elements, or an object of some kind
    with its own enumerable string keys (in `Object.keys` order) and their values.
   */
  datatype Obj =
    | Arr(elems: seq<Value>)
    | Rec(kind: Kind, keys: seq<string>, props: map<string, Value>)

  /** A JavaScript value; numbers are integers plus the distinguished NaN. */
  datatype Value =
    | Undefined
    | Null
    | Bool(b: bool)
    | Num(n: int)
    | NaN
    | Str(s: string)
    | Sym(id: nat)
    | Ref(addr: nat)

  type Heap = seq<Obj>

  /** A value whose reference, if any, points into the heap. */
  predicate Valid(h: Heap, v: Value) {
    v.Ref? ==> v.addr < |h|
  }

  /** An object whose references point into the heap and whose keys are duplicate-free and match its properties. */
  ghost predicate ObjOk(h: Heap, o: Obj) {
    match o
    case Arr(es) => forall i :: 0 <= i < |es| ==> Valid(h, es[i])
    case Rec(_, keys, props) =>
      && (forall i, j :: 0 <= i < j < |keys| ==> keys[i] != keys[j])
      && (forall k :: k in props <==> k in keys)
      && (forall k :: k in props ==> Valid(h, props[k]))
  }

  ghost predicate WellFormed(h: Heap) {
    forall i :: 0 <= i < |h| ==> ObjOk(h, h[i])
  }

  /** `h2` keeps every object of `h1` as it was and may hold more after them. */
  ghost predicate Extends(h1: Heap, h2: Heap) {
    |h1| <= |h2| && forall i :: 0 <= i < |h1| ==> h2[i] == h1[i]
  }

  lemma ExtendsTransitive(h1: Heap, h2: Heap, h3: Heap)
    requires Extends(h1, h2) && Extends(h2, h3)
    ensures Extends(h1, h3)
  {
  }

  /** The result of the `typeof` operator. */
  function TypeOf(h: Heap, v: Value): (t: string)
    requires Valid(h, v)
    ensures t in {"undefined", "object", "boolean", "number", "string", "symbol", "function"}
    ensures t == "function" <==> v.Ref? && h[v.addr].Rec? && h[v.addr].kind.Func?
  {
    match v
    case Undefined => "undefined"
    case Null => "object"
    case Bool(_) => "boolean"
    case Num(_) => "number"
    case NaN => "number"
    case Str(_) => "string"
    case Sym(_) => "symbol"
    case Ref(a) => if h[a].Rec? && h[a].kind.Func? then "function" else "object"
  }

  /** The `===` operator: NaN is not strictly equal to anything, objects are compared by identity. */
  predicate StrictEq(a: Value, b: Value) {
    !a.NaN? && a == b
  }

  /** `d1.getTime() === d2.getTime()` */
  predicate SameTime(t1: Time, t2: Time) {
    t1.Ms? && t2.Ms? && t1.ms == t2.ms
  }

  predicate IsArray(h: Heap, v: Value)
    requires Valid(h, v)
  {
    v.Ref? && h[v.addr].Arr?
  }

  predicate IsDate(h: Heap, v: Value)
    requires Valid(h, v)
  {
    v.Ref? && h[v.addr].Rec? && h[v.addr].kind.Date?
  }

  predicate IsRegExp(h: Heap, v: Value)
    requires Valid(h, v)
  {
    v.Ref? && h[v.addr].Rec? && h[v.addr].kind.RegExp?
  }

  /** `v instanceof Object`: every object except one without a prototype. */
  predicate InstanceOfObject(h: Heap, v: Value)
    requires Valid(h, v)
  {
    v.Ref? && !(h[v.addr].Rec? && h[v.addr].kind.NullProto?)
  }

  /**
    Every chain of references starting at `v` is shorter than `d`; so a
    reference needs `d > 0`, and the objects it reaches need `d - 1`.
   */
  ghost predicate Bounded(h: Heap, v: Value, d: nat)
    decreases d
  {
    match v
    case Ref(a) =>
      && a < |h|
      && d > 0
      && (match h[a]
          case Arr(es) => forall i :: 0 <= i < |es| ==> Bounded(h, es[i], d - 1)
          case Rec(_, _, props) => forall k :: k in props ==> Bounded(h, props[k], d - 1))
    case _ => true
  }

  /** No cycle of references is reachable from `v` (the heap is finite). */
  ghost predicate Acyclic(h: Heap, v: Value) {
    exists d: nat :: Bounded(h, v, d)
  }

  lemma {:induction false} BoundedMonotone(h: Heap, v: Value, d: nat, e: nat)
    requires Bounded(h, v, d) && d <= e
    ensures Bounded(h, v, e)
    decreases d
  {
    if v.Ref? {
      match h[v.addr]
      case Arr(es) =>
        forall i | 0 <= i < |es| ensures Bounded(h, es[i], e - 1) {
          BoundedMonotone(h, es[i], d - 1, e - 1);
        }
      case Rec(_, _, props) =>
        forall k | k in props ensures Bounded(h, props[k], e - 1) {
          BoundedMonotone(h, props[k], d - 1, e - 1);
        }
    }
  }

  lemma BoundedBelow(h: Heap, v: Value, e: nat)
    requires !Bounded(h, v, e)
    ensures forall j: nat :: j <= e ==> !Bounded(h, v, j)
  {
    forall j: nat | j <= e && Bounded(h, v, j) ensures false {
      BoundedMonotone(h, v, j, e);
    }
  }

  /** The least bound not above `d`. */
  ghost function Lowest(h: Heap, v: Value, d: nat): (k: nat)
    requires Bounded(h, v, d)
    ensures k <= d && Bounded(h, v, k)
    ensures forall j: nat :: j < k ==> !Bounded(h, v, j)
    decreases d
  {
    if d == 0 then 0
    else if !Bounded(h, v, d - 1) then BoundedBelow(h, v, d - 1); d
    else Lowest(h, v, d - 1)
  }

  /** The length of the longest chain of references from `v`: the least bound it meets. */
  ghost function Height(h: Heap, v: Value): (k: nat)
    requires Acyclic(h, v)
    ensures Bounded(h, v, k)
    ensures forall j: nat :: j < k ==> !Bounded(h, v, j)
  {
    var d: nat :| Bounded(h, v, d);
    Lowest(h, v, d)
  }

  /** Everything an object refers to is acyclic and strictly lower than the object. */
  lemma ChildHeights(h: Heap, a: nat)
    requires Acyclic(h, Ref(a))
    ensures a < |h| && Height(h, Ref(a)) > 0
    ensures h[a].Arr? ==> forall i :: 0 <= i < |h[a].elems| ==>
      Acyclic(h, h[a].elems[i]) && Height(h, h[a].elems[i]) < Height(h, Ref(a))
    ensures h[a].Rec? ==> forall k :: k in h[a].props ==>
      Acyclic(h, h[a].props[k]) && Height(h, h[a].props[k]) < Height(h, Ref(a))
  {
    var n := Height(h, Ref(a));
    assert Bounded(h, Ref(a), n);
    match h[a]
    case Arr(es) =>
      forall i | 0 <= i < |es| ensures Acyclic(h, es[i]) && Height(h, es[i]) < n {
        assert Bounded(h, es[i], n - 1);
      }
    case Rec(_, _, props) =>
      forall k | k in props ensures Acyclic(h, props[k]) && Height(h, props[k]) < n {
        assert Bounded(h, props[k], n - 1);
      }
  }

  /** One element of an acyclic array: acyclic and lower than the array. */
  lemma ElemHeight(h: Heap, a: nat, i: nat)
    requires Acyclic(h, Ref(a)) && a < |h| && h[a].Arr? && i < |h[a].elems|
    ensures Acyclic(h, h[a].elems[i]) && Height(h, h[a].elems[i]) < Height(h, Ref(a))
  {
    ChildHeights(h, a);
  }

  /** The value under one key of an acyclic object: acyclic and lower than the object. */
  lemma PropHeight(h: Heap, a: nat, k: string)
    requires Acyclic(h, Ref(a)) && a < |h| && h[a].Rec? && k in h[a].props
    ensures Acyclic(h, h[a].props[k]) && Height(h, h[a].props[k]) < Height(h, Ref(a))
  {
    ChildHeights(h, a);
  }

  /** Appending objects and leaving the existing ones alone keeps a bound. */
  lemma {:induction false} BoundedExtends(h: Heap, h': Heap, v: Value, d: nat)
    requires Extends(h, h') && Bounded(h, v, d)
    ensures Bounded(h', v, d)
    decreases d
  {
    if v.Ref? {
      match h[v.addr]
      case Arr(es) =>
        forall i | 0 <= i < |es| ensures Bounded(h', es[i], d - 1) {
          BoundedExtends(h, h', es[i], d - 1);
        }
      case Rec(_, _, props) =>
        forall k | k in props ensures Bounded(h', props[k], d - 1) {
          BoundedExtends(h, h', props[k], d - 1);
        }
    }
  }

  lemma AcyclicExtends(h: Heap, h': Heap, v: Value)
    requires Extends(h, h') && Acyclic(h, v)
    ensures Acyclic(h', v) && Height(h', v) <= Height(h, v)
  {
    BoundedExtends(h, h', v, Height(h, v));
  }

  /** A valid object stays valid as the heap grows. */
  lemma ObjOkGrows(h: Heap, h': Heap, o: Obj)
    requires ObjOk(h, o) && |h| <= |h'|
    ensures ObjOk(h', o)
  {
  }

  /** Appending an object whose references point into the heap keeps it well formed. */
  lemma WellFormedAppend(h: Heap, o: Obj)
    requires WellFormed(h) && ObjOk(h + [o], o)
    ensures WellFormed(h + [o])
  {
  }

  /**
    The one key an assignment `o[k] = x` on an ordinary object does not create:
    `o["__proto__"] = x` runs the setter inherited from `Object.prototype`.
   */
  const ProtoKey: string := "__proto__"

  /** `keys` without `"__proto__"`, in order. */
  function WithoutProto(keys: seq<string>): (r: seq<string>)
    ensures forall k :: k in r <==> k in keys && k != ProtoKey
    ensures ProtoKey !in keys ==> r == keys
    ensures |r| <= |keys|
  {
    if keys == [] then []
    else
      var last := keys[|keys| - 1];
      WithoutProto(keys[..|keys| - 1]) + (if last == ProtoKey then [] else [last])
  }

  /**
    `o[k] = x` on an ordinary object: a key it does not have yet is added last,
    except `"__proto__"`, which creates no own key.
   */
  function SetProp(o: Obj, k: string, x: Value): (r: Obj)
    requires o.Rec?
    ensures r.Rec? && r.kind == o.kind
    ensures k == ProtoKey ==> r == o
    ensures k != ProtoKey ==> k in r.props && r.props[k] == x
    ensures forall k' :: k' != k ==> (k' in r.props <==> k' in o.props) && (k' in o.props ==> r.props[k'] == o.props[k'])
    ensures r.keys == if k == ProtoKey || k in o.keys then o.keys else o.keys + [k]
    ensures forall h: Heap :: ObjOk(h, o) && Valid(h, x) ==> ObjOk(h, r)
  {
    if k == ProtoKey then o
    else if k in o.keys then o.(props := o.props[k := x])
    else o.(keys := o.keys + [k], props := o.props[k := x])
  }

  /** The running program's heap: allocating an object appends it. */
  class JsHeap {
    var objs: Heap

    constructor (h: Heap)
      ensures objs == h
    {
      objs := h;
    }

    method Alloc(o: Obj) returns (r: Value)
      modifies this
      ensures objs == old(objs) + [o] && r == Ref(|old(objs)|)
    {
      r := Ref(|objs|);
      objs := objs + [o];
    }
  }
}
