/**
  deepClone(obj) from src/core-js/deepClone.js.

  `Clone` is the copy as written: it reads the original graph in `h0` and
  allocates into the heap `h` it is given, which starts out as `h0` and only
  ever grows. The method `DeepClone` runs it over a `JsHeap`, with the array
  and object branches as loops.

  A new array or object is allocated once its elements or properties are
  copied rather than before: nothing can reach it before it is returned, so
  the order is not observable.

  `Copied` is an independent description of a result: a fresh structural
  copy. `CloneIsCopy` proves the code meets it, and `CopyIsEqual` that a copy
  compares deeply equal to its original.
 */
module DeepClone {
  import opened JsValues
  import opened DeepEquality

  /** `deepClone(obj)` as written (src/core-js/deepClone.js:1-20); the heap it leaves and the value it returns. */
  function Clone(h0: Heap, h: Heap, v: Value): (r: (Heap, Value))
    requires WellFormed(h0) && Valid(h0, v) && Acyclic(h0, v) && Extends(h0, h)
    ensures Extends(h, r.0) && Valid(r.0, r.1)
    decreases Height(h0, v), 1
  {
    if v == Null || TypeOf(h0, v) != "object" then (h, v)
    else match h0[v.addr]
      case Rec(Date(t), _, _) => (h + [Rec(Date(t), [], map[])], Ref(|h|))
      case Rec(RegExp(s, f), _, _) => (h + [Rec(RegExp(s, f), [], map[])], Ref(|h|))
      case Arr(_) =>
        var (h1, ws) := CloneElems(h0, h, v.addr, 0, []);
        (h1 + [Arr(ws)], Ref(|h1|))
      case Rec(Plain, _, _) =>
        var (h1, o) := CloneProps(h0, h, v.addr, 0, Rec(Plain, [], map[]));
        (h1 + [o], Ref(|h1|))
      case Rec(_, _, _) => (h, v)
  }

  /** `obj.map(el => deepClone(el))` from index `i` on, the copies so far in `ws`. */
  function CloneElems(h0: Heap, h: Heap, a: nat, i: nat, ws: seq<Value>): (r: (Heap, seq<Value>))
    requires WellFormed(h0) && a < |h0| && h0[a].Arr? && Acyclic(h0, Ref(a)) && Extends(h0, h)
    requires i <= |h0[a].elems|
    ensures Extends(h, r.0)
    decreases Height(h0, Ref(a)), 0, |h0[a].elems| - i
  {
    var es := h0[a].elems;
    if i == |es| then (h, ws)
    else
      assert ObjOk(h0, h0[a]);
      ElemHeight(h0, a, i);
      var (h1, w) := Clone(h0, h, es[i]);
      ExtendsTransitive(h0, h, h1);
      CloneElems(h0, h1, a, i + 1, ws + [w])
  }

  /** The loop of lines 13-15 from the `j`-th key on, building `newObj` in `o`. */
  function CloneProps(h0: Heap, h: Heap, a: nat, j: nat, o: Obj): (r: (Heap, Obj))
    requires WellFormed(h0) && a < |h0| && h0[a].Rec? && Acyclic(h0, Ref(a)) && Extends(h0, h)
    requires j <= |h0[a].keys| && o.Rec?
    ensures Extends(h, r.0) && r.1.Rec? && r.1.kind == o.kind
    decreases Height(h0, Ref(a)), 0, |h0[a].keys| - j
  {
    var n := h0[a];
    if j == |n.keys| then (h, o)
    else
      assert ObjOk(h0, n) && n.keys[j] in n.props;
      var key := n.keys[j];
      PropHeight(h0, a, key);
      var (h1, w) := Clone(h0, h, n.props[key]);
      ExtendsTransitive(h0, h, h1);
      CloneProps(h0, h1, a, j + 1, SetProp(o, key, w))
  }

  /** The procedure itself, allocating in `js`; `h0` is the heap the original lives in. */
  method DeepClone(js: JsHeap, v: Value, ghost h0: Heap) returns (w: Value)
    requires WellFormed(h0) && Valid(h0, v) && Acyclic(h0, v) && Extends(h0, js.objs)
    modifies js
    ensures (js.objs, w) == Clone(h0, old(js.objs), v)
    decreases Height(h0, v), 1
  {
    if v == Null || TypeOf(js.objs, v) != "object" {
      return v;
    }
    var obj := js.objs[v.addr];
    assert obj == h0[v.addr];
    if obj.Rec? && obj.kind.Date? {
      w := js.Alloc(Rec(Date(obj.kind.time), [], map[]));
      return;
    }
    if obj.Rec? && obj.kind.RegExp? {
      w := js.Alloc(Rec(RegExp(obj.kind.source, obj.kind.flags), [], map[]));
      return;
    }
    if obj.Arr? {
      w := CloneArray(js, v.addr, h0);
      return;
    }
    if obj.kind.Plain? {
      w := CloneObject(js, v.addr, h0);
      return;
    }
    return v;
  }

  /** Lines 7-9: `obj.map(el => deepClone(el))`. */
  method CloneArray(js: JsHeap, a: nat, ghost h0: Heap) returns (w: Value)
    requires WellFormed(h0) && a < |h0| && h0[a].Arr? && Acyclic(h0, Ref(a)) && Extends(h0, js.objs)
    modifies js
    ensures (js.objs, w) == Clone(h0, old(js.objs), Ref(a))
    decreases Height(h0, Ref(a)), 0
  {
    var es := js.objs[a].elems;
    assert ObjOk(h0, h0[a]);
    var ws := [];
    var i := 0;
    while i < |es|
      invariant i <= |es| && es == h0[a].elems && Extends(h0, js.objs)
      invariant CloneElems(h0, js.objs, a, i, ws) == CloneElems(h0, old(js.objs), a, 0, [])
      decreases |es| - i
    {
      ElemHeight(h0, a, i);
      ghost var before := js.objs;
      var x := DeepClone(js, es[i], h0);
      ExtendsTransitive(h0, before, js.objs);
      ws := ws + [x];
      i := i + 1;
    }
    w := js.Alloc(Arr(ws));
  }

  /** Lines 11-17: a new object given each own key of `obj` in turn. */
  method CloneObject(js: JsHeap, a: nat, ghost h0: Heap) returns (w: Value)
    requires WellFormed(h0) && a < |h0| && h0[a].Rec? && h0[a].kind.Plain? && Acyclic(h0, Ref(a))
    requires Extends(h0, js.objs)
    modifies js
    ensures (js.objs, w) == Clone(h0, old(js.objs), Ref(a))
    decreases Height(h0, Ref(a)), 0
  {
    var entries, props := js.objs[a].keys, js.objs[a].props;
    assert ObjOk(h0, h0[a]);
    var newObj := Rec(Plain, [], map[]);
    var j := 0;
    while j < |entries|
      invariant j <= |entries| && entries == h0[a].keys && props == h0[a].props && Extends(h0, js.objs)
      invariant newObj.Rec?
      invariant CloneProps(h0, js.objs, a, j, newObj) == CloneProps(h0, old(js.objs), a, 0, Rec(Plain, [], map[]))
      decreases |entries| - j
    {
      var key := entries[j];
      assert key in props;
      PropHeight(h0, a, key);
      ghost var before := js.objs;
      var x := DeepClone(js, props[key], h0);
      ExtendsTransitive(h0, before, js.objs);
      newObj := SetProp(newObj, key, x);
      j := j + 1;
    }
    w := js.Alloc(newObj);
  }

  // ---------------------------------------------------------------------
  // What a copy is

  /**
    `w`, in heap `h`, is a fresh structural copy of `v` in `h0`: a primitive,
    a function or an object without a prototype is `w` itself; a Date or a
    RegExp is a new one, at an address from `b` on, with the same time or the
    same source and flags and no own keys; an array is a new array of the same
    length whose elements are copies of the original's; a plain object is a
    new plain object with the same keys in the same order, except that it has
    no own `"__proto__"` key, whose values are copies of the original's.
   */
  ghost predicate Copied(h0: Heap, h: Heap, b: nat, v: Value, w: Value)
    requires WellFormed(h0) && Valid(h0, v) && Acyclic(h0, v)
    decreases Height(h0, v)
  {
    if !v.Ref? || (h0[v.addr].Rec? && (h0[v.addr].kind.Func? || h0[v.addr].kind.NullProto?)) then w == v
    else
      && w.Ref? && b <= w.addr < |h|
      && (ChildHeights(h0, v.addr);
          assert ObjOk(h0, h0[v.addr]);
          match h0[v.addr]
          case Arr(es) =>
            && h[w.addr].Arr? && |h[w.addr].elems| == |es|
            && forall i :: 0 <= i < |es| ==> Copied(h0, h, b, es[i], h[w.addr].elems[i])
          case Rec(kind, keys, props) =>
            if kind.Plain? then
              && h[w.addr].Rec? && h[w.addr].kind.Plain? && h[w.addr].keys == WithoutProto(keys)
              && forall k :: k in props && k != ProtoKey ==> k in h[w.addr].props && Copied(h0, h, b, props[k], h[w.addr].props[k])
            else
              h[w.addr] == Rec(kind, [], map[]))
  }

  /** `Copied` where the original is known to be an acyclic value of `h0`. */
  ghost predicate CopiedAt(h0: Heap, h: Heap, b: nat, v: Value, w: Value) {
    WellFormed(h0) && Valid(h0, v) && Acyclic(h0, v) && Copied(h0, h, b, v, w)
  }

  /** No Date with an invalid time (`new Date(NaN)`) is reachable from `v`. */
  ghost predicate DatesValid(h: Heap, v: Value)
    requires WellFormed(h) && Valid(h, v) && Acyclic(h, v)
    decreases Height(h, v)
  {
    v.Ref? ==>
      (ChildHeights(h, v.addr);
       assert ObjOk(h, h[v.addr]);
       match h[v.addr]
       case Arr(es) => forall i :: 0 <= i < |es| ==> DatesValid(h, es[i])
       case Rec(kind, _, props) =>
         (kind.Date? ==> kind.time.Ms?) && forall k :: k in props ==> DatesValid(h, props[k]))
  }

  /** No object reachable from `v` has an own `"__proto__"` key (as `JSON.parse('{"__proto__": 5}')` makes). */
  ghost predicate NoProtoKeys(h: Heap, v: Value)
    requires WellFormed(h) && Valid(h, v) && Acyclic(h, v)
    decreases Height(h, v)
  {
    v.Ref? ==>
      (ChildHeights(h, v.addr);
       assert ObjOk(h, h[v.addr]);
       match h[v.addr]
       case Arr(es) => forall i :: 0 <= i < |es| ==> NoProtoKeys(h, es[i])
       case Rec(_, _, props) => ProtoKey !in props && forall k :: k in props ==> NoProtoKeys(h, props[k]))
  }

  /** Allocating more objects does not disturb a copy. */
  lemma {:induction false} CopiedExtends(h0: Heap, h1: Heap, h2: Heap, b: nat, v: Value, w: Value)
    requires WellFormed(h0) && Valid(h0, v) && Acyclic(h0, v)
    requires Copied(h0, h1, b, v, w) && Extends(h1, h2)
    ensures Copied(h0, h2, b, v, w)
    decreases Height(h0, v)
  {
    if v.Ref? {
      ChildHeights(h0, v.addr);
      assert ObjOk(h0, h0[v.addr]);
      match h0[v.addr]
      case Arr(es) =>
        if w.Ref? {
          forall i | 0 <= i < |es| ensures Copied(h0, h2, b, es[i], h2[w.addr].elems[i]) {
            CopiedExtends(h0, h1, h2, b, es[i], h1[w.addr].elems[i]);
          }
        }
      case Rec(kind, keys, props) =>
        if kind.Plain? {
          forall k | k in props && k != ProtoKey ensures k in h2[w.addr].props && Copied(h0, h2, b, props[k], h2[w.addr].props[k]) {
            CopiedExtends(h0, h1, h2, b, props[k], h1[w.addr].props[k]);
          }
        }
    }
  }

  /** The code meets the description: what `Clone` returns is a fresh copy allocated in the part of the heap it added. */
  lemma {:induction false} CloneIsCopy(h0: Heap, h: Heap, v: Value)
    requires WellFormed(h0) && Valid(h0, v) && Acyclic(h0, v) && Extends(h0, h)
    ensures Copied(h0, Clone(h0, h, v).0, |h|, v, Clone(h0, h, v).1)
    decreases Height(h0, v), 1
  {
    if v.Ref? && TypeOf(h0, v) == "object" {
      var r := Clone(h0, h, v);
      ChildHeights(h0, v.addr);
      match h0[v.addr]
      case Arr(es) =>
        var (h1, ws) := CloneElems(h0, h, v.addr, 0, []);
        CloneElemsCopy(h0, h, v.addr, 0, [], |h|);
        forall i | 0 <= i < |es| ensures Copied(h0, r.0, |h|, es[i], ws[i]) {
          CopiedExtends(h0, h1, r.0, |h|, es[i], ws[i]);
        }
      case Rec(kind, keys, props) =>
        if kind.Plain? {
          var (h1, o) := CloneProps(h0, h, v.addr, 0, Rec(Plain, [], map[]));
          ClonePropsCopy(h0, h, v.addr, 0, Rec(Plain, [], map[]), |h|);
          forall k | k in props && k != ProtoKey ensures k in o.props && Copied(h0, r.0, |h|, props[k], o.props[k]) {
            CopiedExtends(h0, h1, r.0, |h|, props[k], o.props[k]);
          }
        }
    }
  }

  /** The element loop: every element from `i` on gets a copy at its own index. */
  lemma {:induction false} CloneElemsCopy(h0: Heap, h: Heap, a: nat, i: nat, ws: seq<Value>, b: nat)
    requires WellFormed(h0) && a < |h0| && h0[a].Arr? && Acyclic(h0, Ref(a)) && Extends(h0, h)
    requires i <= |h0[a].elems| && |ws| == i && b <= |h|
    requires forall t :: 0 <= t < i ==> CopiedAt(h0, h, b, h0[a].elems[t], ws[t])
    ensures var r := CloneElems(h0, h, a, i, ws);
      |r.1| == |h0[a].elems| && forall t :: 0 <= t < |r.1| ==> CopiedAt(h0, r.0, b, h0[a].elems[t], r.1[t])
    decreases Height(h0, Ref(a)), 0, |h0[a].elems| - i
  {
    ChildHeights(h0, a);
    var es := h0[a].elems;
    if i < |es| {
      assert ObjOk(h0, h0[a]);
      var (h1, w) := Clone(h0, h, es[i]);
      ExtendsTransitive(h0, h, h1);
      CloneIsCopy(h0, h, es[i]);
      CopiedLowerBase(h0, h1, |h|, b, es[i], w);
      forall t | 0 <= t < i ensures Copied(h0, h1, b, es[t], (ws + [w])[t]) {
        CopiedExtends(h0, h, h1, b, es[t], ws[t]);
      }
      CloneElemsCopy(h0, h1, a, i + 1, ws + [w], b);
    }
  }

  /** The key loop: `o` gets every key from `j` on but `"__proto__"`, in order, with a copy of its value. */
  lemma {:induction false} ClonePropsCopy(h0: Heap, h: Heap, a: nat, j: nat, o: Obj, b: nat)
    requires WellFormed(h0) && a < |h0| && h0[a].Rec? && Acyclic(h0, Ref(a)) && Extends(h0, h)
    requires j <= |h0[a].keys| && o.Rec? && o.kind.Plain? && o.keys == WithoutProto(h0[a].keys[..j]) && b <= |h|
    requires forall k :: k in o.props <==> k in o.keys
    requires forall k :: k in o.props ==> k in h0[a].props && CopiedAt(h0, h, b, h0[a].props[k], o.props[k])
    ensures var r := CloneProps(h0, h, a, j, o);
      && r.1.Rec? && r.1.kind.Plain? && r.1.keys == WithoutProto(h0[a].keys)
      && forall k :: k in h0[a].props && k != ProtoKey ==> k in r.1.props && CopiedAt(h0, r.0, b, h0[a].props[k], r.1.props[k])
    decreases Height(h0, Ref(a)), 0, |h0[a].keys| - j
  {
    ChildHeights(h0, a);
    var n := h0[a];
    assert ObjOk(h0, n);
    if j < |n.keys| {
      var key := n.keys[j];
      var (h1, w) := Clone(h0, h, n.props[key]);
      ExtendsTransitive(h0, h, h1);
      CloneIsCopy(h0, h, n.props[key]);
      CopiedLowerBase(h0, h1, |h|, b, n.props[key], w);
      var o' := SetProp(o, key, w);
      KeyOrderStep(n.keys, j, o, w);
      forall k | k in o'.props ensures k in n.props && Copied(h0, h1, b, n.props[k], o'.props[k]) {
        if k != key {
          CopiedExtends(h0, h, h1, b, n.props[k], o.props[k]);
        }
      }
      ClonePropsCopy(h0, h1, a, j + 1, o', b);
    } else {
      assert n.keys[..j] == n.keys;
    }
  }

  /** One step of the key loop keeps `newObj`'s keys those of `obj` so far, bar `"__proto__"`. */
  lemma KeyOrderStep(keys: seq<string>, j: nat, o: Obj, w: Value)
    requires j < |keys| && forall s, t :: 0 <= s < t < |keys| ==> keys[s] != keys[t]
    requires o.Rec? && o.keys == WithoutProto(keys[..j])
    ensures SetProp(o, keys[j], w).keys == WithoutProto(keys[..j + 1])
  {
    var key := keys[j];
    assert keys[..j + 1][..j] == keys[..j];
    assert key !in keys[..j] by {
      forall t | 0 <= t < j ensures keys[t] != key { }
    }
  }

  /** A copy made from address `b'` on is also a copy made from any lower `b` on. */
  lemma {:induction false} CopiedLowerBase(h0: Heap, h: Heap, b': nat, b: nat, v: Value, w: Value)
    requires WellFormed(h0) && Valid(h0, v) && Acyclic(h0, v)
    requires Copied(h0, h, b', v, w) && b <= b'
    ensures Copied(h0, h, b, v, w)
    decreases Height(h0, v)
  {
    if v.Ref? {
      ChildHeights(h0, v.addr);
      assert ObjOk(h0, h0[v.addr]);
      match h0[v.addr]
      case Arr(es) =>
        if w.Ref? {
          forall i | 0 <= i < |es| ensures Copied(h0, h, b, es[i], h[w.addr].elems[i]) {
            CopiedLowerBase(h0, h, b', b, es[i], h[w.addr].elems[i]);
          }
        }
      case Rec(kind, keys, props) =>
        if kind.Plain? {
          forall k | k in props && k != ProtoKey ensures Copied(h0, h, b, props[k], h[w.addr].props[k]) {
            CopiedLowerBase(h0, h, b', b, props[k], h[w.addr].props[k]);
          }
        }
    }
  }

  /** A copy of an acyclic value is acyclic, and no higher than the original. */
  lemma {:induction false} CopiedBounded(h0: Heap, h: Heap, b: nat, v: Value, w: Value)
    requires WellFormed(h0) && Valid(h0, v) && Acyclic(h0, v) && Extends(h0, h) && WellFormed(h)
    requires Copied(h0, h, b, v, w)
    ensures Bounded(h, w, Height(h0, v))
    decreases Height(h0, v), 1
  {
    var d := Height(h0, v);
    if w == v {
      BoundedExtends(h0, h, v, d);
    } else {
      ChildHeights(h0, v.addr);
      assert ObjOk(h0, h0[v.addr]);
      match h0[v.addr]
      case Arr(es) =>
        var ws := h[w.addr].elems;
        assert |ws| == |es| && forall i :: 0 <= i < |es| ==> Copied(h0, h, b, es[i], ws[i]);
        forall i | 0 <= i < |ws| ensures Bounded(h, ws[i], d - 1) {
          ChildCopyBounded(h0, h, b, es[i], ws[i], d);
        }
      case Rec(kind, keys, props) =>
        if kind.Plain? {
          var n := h[w.addr];
          assert ObjOk(h, n) && n.keys == WithoutProto(keys);
          assert forall k :: k in props && k != ProtoKey ==> k in n.props && Copied(h0, h, b, props[k], n.props[k]);
          forall k | k in n.props ensures Bounded(h, n.props[k], d - 1) {
            assert k in keys;
            ChildCopyBounded(h0, h, b, props[k], n.props[k], d);
          }
        }
    }
  }

  /** The copy of a child of an object of height `d` is bounded by `d - 1`. */
  lemma {:induction false} ChildCopyBounded(h0: Heap, h: Heap, b: nat, c: Value, x: Value, d: nat)
    requires WellFormed(h0) && Valid(h0, c) && Acyclic(h0, c) && Extends(h0, h) && WellFormed(h)
    requires Copied(h0, h, b, c, x) && Height(h0, c) < d
    ensures Bounded(h, x, d - 1)
    decreases Height(h0, c) + 1, 0
  {
    CopiedBounded(h0, h, b, c, x);
    BoundedMonotone(h, x, Height(h0, c), d - 1);
  }

  lemma CopiedAcyclic(h0: Heap, h: Heap, b: nat, v: Value, w: Value)
    requires WellFormed(h0) && Valid(h0, v) && Acyclic(h0, v) && Extends(h0, h) && WellFormed(h)
    requires Copied(h0, h, b, v, w)
    ensures Acyclic(h, w) && Height(h, w) <= Height(h0, v)
  {
    CopiedBounded(h0, h, b, v, w);
  }

  /** `Clone` keeps the heap well formed. */
  lemma {:induction false} CloneWellFormed(h0: Heap, h: Heap, v: Value)
    requires WellFormed(h0) && Valid(h0, v) && Acyclic(h0, v) && Extends(h0, h) && WellFormed(h)
    ensures WellFormed(Clone(h0, h, v).0)
    decreases Height(h0, v), 1
  {
    if v.Ref? && TypeOf(h0, v) == "object" {
      match h0[v.addr]
      case Arr(es) =>
        var (h1, ws) := CloneElems(h0, h, v.addr, 0, []);
        CloneElemsWellFormed(h0, h, v.addr, 0, []);
        WellFormedAppend(h1, Arr(ws));
      case Rec(kind, keys, props) =>
        if kind.Plain? {
          var (h1, o) := CloneProps(h0, h, v.addr, 0, Rec(Plain, [], map[]));
          ClonePropsWellFormed(h0, h, v.addr, 0, Rec(Plain, [], map[]));
          ObjOkGrows(h1, h1 + [o], o);
          WellFormedAppend(h1, o);
        } else if kind.Date? || kind.RegExp? {
          WellFormedAppend(h, Clone(h0, h, v).0[|h|]);
        }
    }
  }

  lemma {:induction false} CloneElemsWellFormed(h0: Heap, h: Heap, a: nat, i: nat, ws: seq<Value>)
    requires WellFormed(h0) && a < |h0| && h0[a].Arr? && Acyclic(h0, Ref(a)) && Extends(h0, h)
    requires i <= |h0[a].elems| && WellFormed(h) && forall t :: 0 <= t < |ws| ==> Valid(h, ws[t])
    ensures var r := CloneElems(h0, h, a, i, ws);
      WellFormed(r.0) && forall t :: 0 <= t < |r.1| ==> Valid(r.0, r.1[t])
    decreases Height(h0, Ref(a)), 0, |h0[a].elems| - i
  {
    var es := h0[a].elems;
    if i < |es| {
      assert ObjOk(h0, h0[a]);
      ElemHeight(h0, a, i);
      var (h1, w) := Clone(h0, h, es[i]);
      ExtendsTransitive(h0, h, h1);
      CloneWellFormed(h0, h, es[i]);
      CloneElemsWellFormed(h0, h1, a, i + 1, ws + [w]);
    }
  }

  lemma {:induction false} ClonePropsWellFormed(h0: Heap, h: Heap, a: nat, j: nat, o: Obj)
    requires WellFormed(h0) && a < |h0| && h0[a].Rec? && Acyclic(h0, Ref(a)) && Extends(h0, h)
    requires j <= |h0[a].keys| && o.Rec? && WellFormed(h) && ObjOk(h, o)
    ensures var r := CloneProps(h0, h, a, j, o);
      WellFormed(r.0) && ObjOk(r.0, r.1)
    decreases Height(h0, Ref(a)), 0, |h0[a].keys| - j
  {
    var n := h0[a];
    if j < |n.keys| {
      assert ObjOk(h0, n) && n.keys[j] in n.props;
      var key := n.keys[j];
      PropHeight(h0, a, key);
      var (h1, w) := Clone(h0, h, n.props[key]);
      ExtendsTransitive(h0, h, h1);
      CloneWellFormed(h0, h, n.props[key]);
      ObjOkGrows(h, h1, o);
      ClonePropsWellFormed(h0, h1, a, j + 1, SetProp(o, key, w));
    }
  }

  /**
    A copy compares deeply equal to its original, provided no Date with an
    invalid time is reachable (`getTime()` of such a Date is NaN, and NaN is
    not `===` to itself) and no own `"__proto__"` key (the copy lacks it).
   */
  lemma {:induction false} CopyIsEqual(h0: Heap, h: Heap, b: nat, v: Value, w: Value)
    requires WellFormed(h0) && Valid(h0, v) && Acyclic(h0, v) && DatesValid(h0, v) && NoProtoKeys(h0, v)
    requires Copied(h0, h, b, v, w) && Extends(h0, h) && |h0| <= b && WellFormed(h)
    ensures Valid(h, v) && Valid(h, w) && Acyclic(h, v) && Same(h, v, w)
    decreases Height(h0, v)
  {
    AcyclicExtends(h0, h, v);
    if v.Ref? && w != v {
      ChildHeights(h0, v.addr);
      ChildHeights(h, v.addr);
      assert ObjOk(h0, h0[v.addr]) && ObjOk(h, h[w.addr]);
      match h0[v.addr]
      case Arr(es) =>
        var ws := h[w.addr].elems;
        forall i | 0 <= i < |es| ensures Valid(h, es[i]) && Valid(h, ws[i]) && Acyclic(h, es[i]) && Same(h, es[i], ws[i]) {
          CopyIsEqual(h0, h, b, es[i], ws[i]);
        }
      case Rec(kind, keys, props) =>
        if kind.Plain? {
          var n := h[w.addr];
          assert ProtoKey !in keys && n.keys == keys;
          forall k | k in props ensures k in n.props && Valid(h, props[k]) && Valid(h, n.props[k]) && Acyclic(h, props[k]) && Same(h, props[k], n.props[k]) {
            CopyIsEqual(h0, h, b, props[k], n.props[k]);
          }
        }
    }
  }

  /**
    Round trip: `deepEquality(v, deepClone(v))` is true for an acyclic `v`
    with no invalid Date and no own `"__proto__"` key, given stack enough for
    the height of `v`.
   */
  lemma RoundTrip(h0: Heap, h: Heap, v: Value, stack: nat)
    requires WellFormed(h0) && Valid(h0, v) && Acyclic(h0, v) && DatesValid(h0, v) && NoProtoKeys(h0, v)
    requires Height(h0, v) <= stack
    requires Extends(h0, h) && WellFormed(h)
    ensures var (h1, w) := Clone(h0, h, v);
      WellFormed(h1) && Valid(h1, v) && DeepEqual(h1, v, w, stack) == Returned(true)
  {
    var (h1, w) := Clone(h0, h, v);
    CloneIsCopy(h0, h, v);
    CloneWellFormed(h0, h, v);
    ExtendsTransitive(h0, h, h1);
    CopyIsEqual(h0, h1, |h|, v, w);
    AcyclicExtends(h0, h1, v);
    DeepEqualIsSame(h1, v, w, stack);
  }

  /** A copy of a copy is a copy of the original. */
  lemma {:induction false} CopiedTransitive(h0: Heap, h1: Heap, h2: Heap, b1: nat, b2: nat, v: Value, w1: Value, w2: Value)
    requires WellFormed(h0) && Valid(h0, v) && Acyclic(h0, v) && Extends(h0, h1) && Copied(h0, h1, b1, v, w1)
    requires WellFormed(h1) && Valid(h1, w1) && Acyclic(h1, w1) && Copied(h1, h2, b2, w1, w2) && b1 <= b2
    ensures Copied(h0, h2, b1, v, w2)
    decreases Height(h0, v)
  {
    if v.Ref? && !(h0[v.addr].Rec? && (h0[v.addr].kind.Func? || h0[v.addr].kind.NullProto?)) {
      ChildHeights(h0, v.addr);
      ChildHeights(h1, w1.addr);
      assert ObjOk(h0, h0[v.addr]) && ObjOk(h1, h1[w1.addr]);
      match h0[v.addr]
      case Arr(es) =>
        var ws1, ws2 := h1[w1.addr].elems, h2[w2.addr].elems;
        forall i | 0 <= i < |es| ensures Copied(h0, h2, b1, es[i], ws2[i]) {
          CopiedTransitive(h0, h1, h2, b1, b2, es[i], ws1[i], ws2[i]);
        }
      case Rec(kind, keys, props) =>
        if kind.Plain? {
          var n1, n2 := h1[w1.addr], h2[w2.addr];
          forall k | k in props && k != ProtoKey ensures k in n2.props && Copied(h0, h2, b1, props[k], n2.props[k]) {
            CopiedTransitive(h0, h1, h2, b1, b2, props[k], n1.props[k], n2.props[k]);
          }
        }
    }
  }

  /** `deepEquality(v, deepClone(deepClone(v)))` is true on the same terms as the single round trip. */
  lemma DoubleRoundTrip(h0: Heap, v: Value, stack: nat)
    requires WellFormed(h0) && Valid(h0, v) && Acyclic(h0, v) && DatesValid(h0, v) && NoProtoKeys(h0, v)
    requires Height(h0, v) <= stack
    ensures var (h1, w1) := Clone(h0, h0, v);
      && WellFormed(h1) && Acyclic(h1, w1)
      && var (h2, w2) := Clone(h1, h1, w1);
         WellFormed(h2) && Valid(h2, v) && DeepEqual(h2, v, w2, stack) == Returned(true)
  {
    var (h1, w1) := Clone(h0, h0, v);
    CloneIsCopy(h0, h0, v);
    CloneWellFormed(h0, h0, v);
    CopiedAcyclic(h0, h1, |h0|, v, w1);
    var (h2, w2) := Clone(h1, h1, w1);
    CloneIsCopy(h1, h1, w1);
    CloneWellFormed(h1, h1, w1);
    CopiedTransitive(h0, h1, h2, |h0|, |h1|, v, w1, w2);
    ExtendsTransitive(h0, h1, h2);
    CopyIsEqual(h0, h2, |h0|, v, w2);
    AcyclicExtends(h0, h2, v);
    DeepEqualIsSame(h2, v, w2, stack);
  }

  // ---------------------------------------------------------------------
  // Particular graphs

  /** `o = {}` (address 0) and `a = [o, o]` (address 1) */
  const Shared: Heap := [Rec(Plain, [], map[]), Arr([Ref(0), Ref(0)])]

  lemma SharedIsAcyclic()
    ensures WellFormed(Shared) && Valid(Shared, Ref(1)) && Acyclic(Shared, Ref(0)) && Acyclic(Shared, Ref(1))
  {
    var h := Shared;
    assert ObjOk(h, h[0]) && ObjOk(h, h[1]);
    assert Bounded(h, Ref(0), 1);
    assert Bounded(h, Ref(1), 2);
  }

  /** Sharing is not kept: the two elements of `a` are one object, those of its clone are two. */
  lemma SharingIsNotKept()
    ensures WellFormed(Shared) && Valid(Shared, Ref(1)) && Acyclic(Shared, Ref(1))
    ensures var (h, w) := Clone(Shared, Shared, Ref(1));
      w.Ref? && w.addr < |h| && h[w.addr].Arr? && |h[w.addr].elems| == 2
      && Shared[1].elems[0] == Shared[1].elems[1] && h[w.addr].elems[0] != h[w.addr].elems[1]
  {
    SharedIsAcyclic();
    var h0 := Shared;
    var empty := Rec(Plain, [], map[]);
    assert CloneProps(h0, h0, 0, 0, empty) == (h0, empty);
    assert Clone(h0, h0, Ref(0)) == (h0 + [empty], Ref(2));
    var h1, h2 := h0 + [empty], h0 + [empty] + [empty];
    assert h0[1].elems == [Ref(0), Ref(0)];
    assert [] + [Ref(2)] == [Ref(2)] && [Ref(2)] + [Ref(3)] == [Ref(2), Ref(3)];
    assert CloneProps(h0, h1, 0, 0, empty) == (h1, empty);
    assert Clone(h0, h1, Ref(0)) == (h2, Ref(3));
    assert CloneElems(h0, h2, 1, 2, [Ref(2), Ref(3)]) == (h2, [Ref(2), Ref(3)]);
    assert CloneElems(h0, h1, 1, 1, [Ref(2)]) == (h2, [Ref(2), Ref(3)]);
    assert CloneElems(h0, h0, 1, 0, []) == (h2, [Ref(2), Ref(3)]);
  }

  /** `new Date(NaN)` */
  const InvalidDate: Heap := [Rec(Date(InvalidTime), [], map[])]

  /**
    Without the Date condition the round trip fails: the clone of an invalid
    Date is an invalid Date, and two distinct invalid Dates are unequal.
   */
  lemma InvalidDateBreaksRoundTrip(stack: nat)
    ensures WellFormed(InvalidDate) && Acyclic(InvalidDate, Ref(0)) && !DatesValid(InvalidDate, Ref(0))
    ensures var (h, w) := Clone(InvalidDate, InvalidDate, Ref(0));
      WellFormed(h) && Valid(h, w) && DeepEqual(h, Ref(0), w, stack) == Returned(false)
  {
    var h0 := InvalidDate;
    assert ObjOk(h0, h0[0]);
    assert Bounded(h0, Ref(0), 1);
    var h := h0 + [Rec(Date(InvalidTime), [], map[])];
    assert Clone(h0, h0, Ref(0)) == (h, Ref(1));
    assert ObjOk(h, h[0]) && ObjOk(h, h[1]);
  }

  /** `JSON.parse('{"__proto__": 5}')`: a plain object with an own `"__proto__"` key. */
  const OwnProtoKey: Heap := [Rec(Plain, [ProtoKey], map[ProtoKey := Num(5)])]

  /**
    Without the key condition the round trip fails: `newObj["__proto__"] = 5`
    creates no own key, so the clone has no keys and the original one.
   */
  lemma ProtoKeyBreaksRoundTrip(stack: nat)
    ensures WellFormed(OwnProtoKey) && Acyclic(OwnProtoKey, Ref(0))
    ensures DatesValid(OwnProtoKey, Ref(0)) && !NoProtoKeys(OwnProtoKey, Ref(0))
    ensures var (h, w) := Clone(OwnProtoKey, OwnProtoKey, Ref(0));
      && WellFormed(h) && Valid(h, w) && w.Ref? && h[w.addr] == Rec(Plain, [], map[])
      && DeepEqual(h, Ref(0), w, stack) == Returned(false)
  {
    var h0 := OwnProtoKey;
    var o := h0[0];
    assert ObjOk(h0, o);
    assert Bounded(h0, Ref(0), 1);
    var empty := Rec(Plain, [], map[]);
    assert CloneProps(h0, h0, 0, 1, empty) == (h0, empty);
    assert CloneProps(h0, h0, 0, 0, empty) == (h0, empty);
    var h := h0 + [empty];
    assert Clone(h0, h0, Ref(0)) == (h, Ref(1));
    assert ObjOk(h, h[0]) && ObjOk(h, h[1]);
    assert LeafVerdict(h, Ref(0), Ref(1)) == Undecided;
  }
}
