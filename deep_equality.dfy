/**
  deepEquality(obj1, obj2, map) from src/core-js/deepEquality.js.

  `Equal` is the comparison as written, with its visited map threaded through
  every call; the method `DeepEquality` runs it imperatively over a shared
  `VisitedMap`. The code does not always terminate on cyclic graphs, so each
  call is given a call-stack budget `stack`: a call with nothing left to
  descend with ends in `StackOverflow`, the RangeError the host would throw.

  `Same` is an independent reference definition without any visited map,
  defined on acyclic left-hand graphs; `EqualIsSame` proves that the visited
  map never changes the answer there.
 */
module DeepEquality {
  import opened JsValues

  datatype Outcome = Returned(equal: bool) | StackOverflow

  /** What a call returns together with the visited map as it left it. */
  datatype Run = Run(outcome: Outcome, visited: map<nat, nat>)

  /** The WeakMap shared by all recursive calls, keyed by left-hand object. */
  class VisitedMap {
    var entries: map<nat, nat>

    constructor ()
      ensures entries == map[]
    {
      entries := map[];
    }

    /** `map.has(x) && map.get(x) === y` */
    function Maps(x: nat, y: nat): (r: bool)
      reads this
    {
      x in entries && entries[x] == y
    }

    /** `map.set(x, y)`, replacing any earlier partner of x. */
    method Set(x: nat, y: nat)
      modifies this
      ensures entries == old(entries)[x := y]
    {
      entries := entries[x := y];
    }
  }

  /** What the kind checks of lines 3-9 decide about a pair without looking inside it. */
  datatype Verdict = Decided(equal: bool) | Undecided

  /** Lines 3-9 (lines 5 and 6, undefined/undefined and null/null, are already decided by line 4). */
  function LeafVerdict(h: Heap, a: Value, b: Value): (v: Verdict)
    requires Valid(h, a) && Valid(h, b)
    ensures v == Undecided ==> TypeOf(h, a) == TypeOf(h, b) && !StrictEq(a, b) && !(a.NaN? && b.NaN?)
    ensures v == Undecided ==> !(IsDate(h, a) && IsDate(h, b)) && !(IsRegExp(h, a) && IsRegExp(h, b))
  {
    if TypeOf(h, a) != TypeOf(h, b) then Decided(false)
    else if StrictEq(a, b) then Decided(true)
    else if IsDate(h, a) && IsDate(h, b) then
      Decided(SameTime(h[a.addr].kind.time, h[b.addr].kind.time))
    else if IsRegExp(h, a) && IsRegExp(h, b) then
      Decided(h[a.addr].kind.source == h[b.addr].kind.source && h[a.addr].kind.flags == h[b.addr].kind.flags)
    else if a.NaN? && b.NaN? then Decided(true)
    else Undecided
  }

  /**
    A pair `map.set` is called with: two arrays of one length (line 17), or two
    objects that are `instanceof Object` and not arrays (line 32).
   */
  predicate SetPair(h: Heap, x: nat, y: nat) {
    && x < |h| && y < |h|
    && if h[x].Arr? then h[y].Arr? && |h[x].elems| == |h[y].elems|
       else h[y].Rec? && !h[x].kind.NullProto? && !h[y].kind.NullProto?
  }

  /** The entry for `x` is kept, or is new or changed to a pair `map.set` is called with. */
  ghost predicate SetsOnlyAt(h: Heap, m: map<nat, nat>, m': map<nat, nat>, x: nat) {
    && (x in m ==> x in m')
    && (x in m' ==> (x in m && m'[x] == m[x]) || SetPair(h, x, m'[x]))
  }

  /**
    `m'` arises from `m` by `map.set` calls alone: no entry is removed, and
    every entry that is new or changed is a pair `map.set` is called with.
   */
  ghost predicate SetsOnly(h: Heap, m: map<nat, nat>, m': map<nat, nat>) {
    forall x :: SetsOnlyAt(h, m, m', x)
  }

  lemma SetsOnlySet(h: Heap, m: map<nat, nat>, x: nat, y: nat)
    requires SetPair(h, x, y)
    ensures SetsOnly(h, m, m[x := y])
  {
  }

  lemma SetsOnlyTransitive(h: Heap, m1: map<nat, nat>, m2: map<nat, nat>, m3: map<nat, nat>)
    requires SetsOnly(h, m1, m2) && SetsOnly(h, m2, m3)
    ensures SetsOnly(h, m1, m3)
  {
    forall x ensures SetsOnlyAt(h, m1, m3, x) {
      assert SetsOnlyAt(h, m1, m2, x) && SetsOnlyAt(h, m2, m3, x);
    }
  }

  /** `deepEquality(obj1, obj2, map)` as written (src/core-js/deepEquality.js:1-47). */
  function Equal(h: Heap, a: Value, b: Value, m: map<nat, nat>, stack: nat): (r: Run)
    requires WellFormed(h) && Valid(h, a) && Valid(h, b)
    ensures SetsOnly(h, m, r.visited)
    decreases stack, 1
  {
    match LeafVerdict(h, a, b)
    case Decided(eq) => Run(Returned(eq), m)
    case Undecided =>
      if a.Ref? && TypeOf(h, a) == "object" && b.Ref? && a.addr in m && m[a.addr] == b.addr then
        Run(Returned(true), m)
      else if IsArray(h, a) && IsArray(h, b) && |h[a.addr].elems| == |h[b.addr].elems| then
        SetsOnlySet(h, m, a.addr, b.addr);
        var r := EqualElems(h, a.addr, b.addr, 0, m[a.addr := b.addr], stack);
        SetsOnlyTransitive(h, m, m[a.addr := b.addr], r.visited);
        r
      else if InstanceOfObject(h, a) && InstanceOfObject(h, b) then
        if IsArray(h, a) || IsArray(h, b) then Run(Returned(false), m)
        else
          var m1 := m[a.addr := b.addr];
          SetsOnlySet(h, m, a.addr, b.addr);
          if |h[a.addr].keys| != |h[b.addr].keys| then Run(Returned(false), m1)
          else
            var r := EqualKeys(h, a.addr, b.addr, 0, m1, stack);
            SetsOnlyTransitive(h, m, m1, r.visited);
            r
      else Run(Returned(false), m)
  }

  /** The index loop of lines 19-27, from index `i` on. */
  function EqualElems(h: Heap, a1: nat, a2: nat, i: nat, m: map<nat, nat>, stack: nat): (r: Run)
    requires WellFormed(h) && a1 < |h| && a2 < |h| && h[a1].Arr? && h[a2].Arr?
    ensures SetsOnly(h, m, r.visited)
    decreases stack, 0, |h[a1].elems| - i
  {
    var es1, es2 := h[a1].elems, h[a2].elems;
    if i >= |es1| || i >= |es2| then Run(Returned(true), m)
    else if stack == 0 then Run(StackOverflow, m)
    else
      var r := Equal(h, es1[i], es2[i], m, stack - 1);
      if r.outcome != Returned(true) then r
      else
        var rest := EqualElems(h, a1, a2, i + 1, r.visited, stack);
        SetsOnlyTransitive(h, m, r.visited, rest.visited);
        rest
  }

  /** The key loop of lines 39-43, from the `j`-th key of the left object on. */
  function EqualKeys(h: Heap, a1: nat, a2: nat, j: nat, m: map<nat, nat>, stack: nat): (r: Run)
    requires WellFormed(h) && a1 < |h| && a2 < |h| && h[a1].Rec? && h[a2].Rec?
    ensures SetsOnly(h, m, r.visited)
    decreases stack, 0, |h[a1].keys| - j
  {
    var n1, n2 := h[a1], h[a2];
    if j >= |n1.keys| then Run(Returned(true), m)
    else
      var key := n1.keys[j];
      if key !in n2.keys then Run(Returned(false), m)
      else if stack == 0 then Run(StackOverflow, m)
      else
        var r := Equal(h, n1.props[key], n2.props[key], m, stack - 1);
        if r.outcome != Returned(true) then r
        else
          var rest := EqualKeys(h, a1, a2, j + 1, r.visited, stack);
          SetsOnlyTransitive(h, m, r.visited, rest.visited);
          rest
  }

  /** A top-level call `deepEquality(obj1, obj2)`: the map starts empty. */
  function DeepEqual(h: Heap, a: Value, b: Value, stack: nat): Outcome
    requires WellFormed(h) && Valid(h, a) && Valid(h, b)
  {
    Equal(h, a, b, map[], stack).outcome
  }

  /** The recursive procedure, updating the shared map in place. */
  method DeepEquality(h: Heap, a: Value, b: Value, visited: VisitedMap, stack: nat) returns (o: Outcome)
    requires WellFormed(h) && Valid(h, a) && Valid(h, b)
    modifies visited
    ensures Run(o, visited.entries) == Equal(h, a, b, old(visited.entries), stack)
    decreases stack, 2
  {
    if TypeOf(h, a) != TypeOf(h, b) { return Returned(false); }
    if StrictEq(a, b) { return Returned(true); }
    if IsDate(h, a) && IsDate(h, b) {
      return Returned(SameTime(h[a.addr].kind.time, h[b.addr].kind.time));
    }
    if IsRegExp(h, a) && IsRegExp(h, b) {
      return Returned(h[a.addr].kind.source == h[b.addr].kind.source
                      && h[a.addr].kind.flags == h[b.addr].kind.flags);
    }
    if a.NaN? && b.NaN? { return Returned(true); }
    if a.Ref? && TypeOf(h, a) == "object" {
      if b.Ref? && visited.Maps(a.addr, b.addr) { return Returned(true); }
    }
    if IsArray(h, a) && IsArray(h, b) && |h[a.addr].elems| == |h[b.addr].elems| {
      visited.Set(a.addr, b.addr);
      o := CompareElements(h, a.addr, b.addr, visited, stack);
      return;
    }
    if InstanceOfObject(h, a) && InstanceOfObject(h, b) {
      if IsArray(h, a) || IsArray(h, b) { return Returned(false); }
      visited.Set(a.addr, b.addr);
      if |h[a.addr].keys| != |h[b.addr].keys| { return Returned(false); }
      o := CompareKeys(h, a.addr, b.addr, visited, stack);
      return;
    }
    return Returned(false);
  }

  /** Lines 19-27: compare the elements pairwise in index order, stopping at the first difference. */
  method CompareElements(h: Heap, a1: nat, a2: nat, visited: VisitedMap, stack: nat) returns (o: Outcome)
    requires WellFormed(h) && a1 < |h| && a2 < |h| && h[a1].Arr? && h[a2].Arr?
    modifies visited
    ensures Run(o, visited.entries) == EqualElems(h, a1, a2, 0, old(visited.entries), stack)
    decreases stack, 1
  {
    var es1, es2 := h[a1].elems, h[a2].elems;
    var i := 0;
    ghost var outcome := EqualElems(h, a1, a2, 0, visited.entries, stack);
    while i < |es1| && i < |es2|
      invariant i <= |es1|
      invariant EqualElems(h, a1, a2, i, visited.entries, stack) == outcome
      decreases |es1| - i
    {
      var result := CompareElementAt(h, a1, a2, i, visited, stack);
      if result != Returned(true) { return result; }
      i := i + 1;
    }
    ElemsStop(h, a1, a2, i, visited.entries, stack);
    return Returned(true);
  }

  /** Line 20, one turn of the element loop: `deepEquality(obj1[i], obj2[i], map)`. */
  method CompareElementAt(h: Heap, a1: nat, a2: nat, i: nat, visited: VisitedMap, stack: nat) returns (o: Outcome)
    requires WellFormed(h) && a1 < |h| && a2 < |h| && h[a1].Arr? && h[a2].Arr?
    requires i < |h[a1].elems| && i < |h[a2].elems|
    modifies visited
    ensures o != Returned(true) ==> EqualElems(h, a1, a2, i, old(visited.entries), stack) == Run(o, visited.entries)
    ensures o == Returned(true) ==> EqualElems(h, a1, a2, i, old(visited.entries), stack) == EqualElems(h, a1, a2, i + 1, visited.entries, stack)
    decreases stack, 0
  {
    if stack == 0 {
      ElemsStop(h, a1, a2, i, visited.entries, stack);
      return StackOverflow;
    }
    assert ObjOk(h, h[a1]) && ObjOk(h, h[a2]);
    ghost var before := visited.entries;
    o := DeepEquality(h, h[a1].elems[i], h[a2].elems[i], visited, stack - 1);
    ElemsStep(h, a1, a2, i, before, stack, o, visited.entries);
  }

  /** Lines 39-43: every key of the left object must be a key of the right one with an equal value. */
  method CompareKeys(h: Heap, a1: nat, a2: nat, visited: VisitedMap, stack: nat) returns (o: Outcome)
    requires WellFormed(h) && a1 < |h| && a2 < |h| && h[a1].Rec? && h[a2].Rec?
    modifies visited
    ensures Run(o, visited.entries) == EqualKeys(h, a1, a2, 0, old(visited.entries), stack)
    decreases stack, 1
  {
    var keys1 := h[a1].keys;
    var j := 0;
    ghost var outcome := EqualKeys(h, a1, a2, 0, visited.entries, stack);
    while j < |keys1|
      invariant j <= |keys1|
      invariant EqualKeys(h, a1, a2, j, visited.entries, stack) == outcome
      decreases |keys1| - j
    {
      var result := CompareKeyAt(h, a1, a2, j, visited, stack);
      if result != Returned(true) { return result; }
      j := j + 1;
    }
    KeysStop(h, a1, a2, j, visited.entries, stack);
    return Returned(true);
  }

  /** Line 40, one turn of the key loop: `!keys2.includes(key) || !deepEquality(obj1[key], obj2[key], map)`. */
  method CompareKeyAt(h: Heap, a1: nat, a2: nat, j: nat, visited: VisitedMap, stack: nat) returns (o: Outcome)
    requires WellFormed(h) && a1 < |h| && a2 < |h| && h[a1].Rec? && h[a2].Rec? && j < |h[a1].keys|
    modifies visited
    ensures o != Returned(true) ==> EqualKeys(h, a1, a2, j, old(visited.entries), stack) == Run(o, visited.entries)
    ensures o == Returned(true) ==> EqualKeys(h, a1, a2, j, old(visited.entries), stack) == EqualKeys(h, a1, a2, j + 1, visited.entries, stack)
    decreases stack, 0
  {
    var n1, n2 := h[a1], h[a2];
    var key := n1.keys[j];
    if key !in n2.keys {
      KeysStop(h, a1, a2, j, visited.entries, stack);
      return Returned(false);
    }
    if stack == 0 {
      KeysStop(h, a1, a2, j, visited.entries, stack);
      return StackOverflow;
    }
    KeyValue(h, a1, key);
    KeyValue(h, a2, key);
    ghost var before := visited.entries;
    o := DeepEquality(h, n1.props[key], n2.props[key], visited, stack - 1);
    KeysStep(h, a1, a2, j, before, stack, o, visited.entries);
  }

  /** `deepEquality(obj1, obj2)` with the default `new WeakMap()`. */
  method DeepEqualityTop(h: Heap, a: Value, b: Value, stack: nat) returns (o: Outcome)
    requires WellFormed(h) && Valid(h, a) && Valid(h, b)
    ensures o == DeepEqual(h, a, b, stack)
  {
    var visited := new VisitedMap();
    o := DeepEquality(h, a, b, visited, stack);
  }

  /**
    Deep equality on an acyclic left-hand graph, without a visited map: the
    kind dispatch of the source, an array equal only to an array of the same
    length with pairwise equal elements, and a non-array object equal to one
    with as many own keys where every key of the left one is a key of the right
    one with an equal value.
   */
  ghost predicate Same(h: Heap, a: Value, b: Value)
    requires WellFormed(h) && Valid(h, a) && Valid(h, b) && Acyclic(h, a)
    decreases Height(h, a)
  {
    match LeafVerdict(h, a, b)
    case Decided(eq) => eq
    case Undecided =>
      if IsArray(h, a) || IsArray(h, b) then
        && IsArray(h, a) && IsArray(h, b)
        && (ChildHeights(h, a.addr);
            var es1, es2 := h[a.addr].elems, h[b.addr].elems;
            |es1| == |es2| && forall i :: 0 <= i < |es1| ==> Same(h, es1[i], es2[i]))
      else
        && InstanceOfObject(h, a) && InstanceOfObject(h, b)
        && (ChildHeights(h, a.addr);
            var n1, n2 := h[a.addr], h[b.addr];
            && |n1.keys| == |n2.keys|
            && forall k :: k in n1.props ==> k in n2.props && Same(h, n1.props[k], n2.props[k]))
  }

  /** An entry `x -> y` of the visited map that is a genuinely equal pair. */
  ghost predicate Paired(h: Heap, x: nat, y: nat) {
    x < |h| && y < |h| && WellFormed(h) && Acyclic(h, Ref(x)) && Same(h, Ref(x), Ref(y))
  }

  /**
    The entry for `x`, if any, is an equal pair, or `x` is an object reaching a
    chain at least `r` long: an object still being compared further up, which a
    call on an object of height at most `r` can never meet as its left-hand side.
   */
  ghost predicate TrustedAt(h: Heap, m: map<nat, nat>, r: nat, x: nat) {
    x in m ==> Paired(h, x, m[x]) || !Bounded(h, Ref(x), r)
  }

  ghost predicate Trusted(h: Heap, m: map<nat, nat>, r: nat) {
    forall x :: TrustedAt(h, m, r, x)
  }

  /** The entry for `x` in `m'`, if any, is its entry in `m` or an equal pair. */
  ghost predicate GrowsAt(h: Heap, m: map<nat, nat>, m': map<nat, nat>, x: nat) {
    x in m' ==> (x in m && m'[x] == m[x]) || Paired(h, x, m'[x])
  }

  /** Every entry of `m'` is an entry of `m` or an equal pair. */
  ghost predicate Grows(h: Heap, m: map<nat, nat>, m': map<nat, nat>) {
    forall x :: GrowsAt(h, m, m', x)
  }

  lemma TrustedLower(h: Heap, m: map<nat, nat>, r: nat, r': nat)
    requires Trusted(h, m, r) && r' <= r
    ensures Trusted(h, m, r')
  {
    forall x ensures TrustedAt(h, m, r', x) {
      assert TrustedAt(h, m, r, x);
      if x in m && !Paired(h, x, m[x]) {
        BoundedBelow(h, Ref(x), r);
      }
    }
  }

  lemma TrustedGrows(h: Heap, m: map<nat, nat>, m': map<nat, nat>, r: nat)
    requires Trusted(h, m, r) && Grows(h, m, m')
    ensures Trusted(h, m', r)
  {
    forall x ensures TrustedAt(h, m', r, x) {
      assert TrustedAt(h, m, r, x) && GrowsAt(h, m, m', x);
    }
  }

  lemma GrowsTransitive(h: Heap, m1: map<nat, nat>, m2: map<nat, nat>, m3: map<nat, nat>)
    requires Grows(h, m1, m2) && Grows(h, m2, m3)
    ensures Grows(h, m1, m3)
  {
    forall x ensures GrowsAt(h, m1, m3, x) {
      assert GrowsAt(h, m1, m2, x) && GrowsAt(h, m2, m3, x);
    }
  }

  /**
    On an acyclic left-hand graph, with stack enough for its height, the
    comparison as written terminates and agrees with `Same`: the visited map it
    keeps never makes it accept a pair that is not equal.
   */
  lemma {:induction false} EqualIsSame(h: Heap, a: Value, b: Value, m: map<nat, nat>, stack: nat)
    requires WellFormed(h) && Valid(h, a) && Valid(h, b)
    requires Acyclic(h, a) && Height(h, a) <= stack && Trusted(h, m, Height(h, a))
    ensures Equal(h, a, b, m, stack).outcome == Returned(Same(h, a, b))
    ensures Same(h, a, b) ==> Grows(h, m, Equal(h, a, b, m, stack).visited)
    decreases stack, 2
  {
    if LeafVerdict(h, a, b).Undecided? {
      if a.Ref? && TypeOf(h, a) == "object" && b.Ref? && a.addr in m && m[a.addr] == b.addr {
        assert Bounded(h, a, Height(h, a)) && TrustedAt(h, m, Height(h, a), a.addr);
        assert Paired(h, a.addr, b.addr);
      } else if IsArray(h, a) && IsArray(h, b) && |h[a.addr].elems| == |h[b.addr].elems| {
        EqualArraysIsSame(h, a, b, m, stack);
      } else if !IsArray(h, a) && !IsArray(h, b) && InstanceOfObject(h, a) && InstanceOfObject(h, b) {
        EqualObjectsIsSame(h, a, b, m, stack);
      }
    }
  }

  /** The array branch, lines 15-28, when no visited entry decides it. */
  lemma EqualArraysIsSame(h: Heap, a: Value, b: Value, m: map<nat, nat>, stack: nat)
    requires WellFormed(h) && Valid(h, a) && Valid(h, b)
    requires Acyclic(h, a) && Height(h, a) <= stack && Trusted(h, m, Height(h, a))
    requires LeafVerdict(h, a, b).Undecided?
    requires IsArray(h, a) && IsArray(h, b) && |h[a.addr].elems| == |h[b.addr].elems|
    requires !(a.addr in m && m[a.addr] == b.addr)
    ensures Equal(h, a, b, m, stack).outcome == Returned(Same(h, a, b))
    ensures Same(h, a, b) ==> Grows(h, m, Equal(h, a, b, m, stack).visited)
    decreases stack, 1
  {
    var n := Height(h, a);
    var m1 := m[a.addr := b.addr];
    assert Trusted(h, m1, n - 1) by {
      TrustedLower(h, m, n, n - 1);
      EnterTrusted(h, m, a.addr, b.addr, n - 1);
    }
    EqualElemsIsSame(h, a.addr, b.addr, 0, m1, stack, n);
    var r := EqualElems(h, a.addr, b.addr, 0, m1, stack);
    assert Equal(h, a, b, m, stack) == r;
    assert Same(h, a, b) == SameFrom(h, a.addr, b.addr, 0) by {
      ChildHeights(h, a.addr);
    }
    if Same(h, a, b) {
      LeaveGrows(h, m, a.addr, b.addr, r.visited);
    }
  }

  /** The object branch, lines 30-44, when no visited entry decides it. */
  lemma EqualObjectsIsSame(h: Heap, a: Value, b: Value, m: map<nat, nat>, stack: nat)
    requires WellFormed(h) && Valid(h, a) && Valid(h, b)
    requires Acyclic(h, a) && Height(h, a) <= stack && Trusted(h, m, Height(h, a))
    requires LeafVerdict(h, a, b).Undecided?
    requires !IsArray(h, a) && !IsArray(h, b) && InstanceOfObject(h, a) && InstanceOfObject(h, b)
    requires !(TypeOf(h, a) == "object" && a.addr in m && m[a.addr] == b.addr)
    ensures Equal(h, a, b, m, stack).outcome == Returned(Same(h, a, b))
    ensures Same(h, a, b) ==> Grows(h, m, Equal(h, a, b, m, stack).visited)
    decreases stack, 1
  {
    var n := Height(h, a);
    var m1 := m[a.addr := b.addr];
    var n1, n2 := h[a.addr], h[b.addr];
    if |n1.keys| == |n2.keys| {
      assert Trusted(h, m1, n - 1) by {
        TrustedLower(h, m, n, n - 1);
        EnterTrusted(h, m, a.addr, b.addr, n - 1);
      }
      EqualKeysIsSame(h, a.addr, b.addr, 0, m1, stack, n);
      var r := EqualKeys(h, a.addr, b.addr, 0, m1, stack);
      assert Equal(h, a, b, m, stack) == r;
      assert Same(h, a, b) == SameKeysFrom(h, a.addr, b.addr, 0) by {
        ChildHeights(h, a.addr);
        SameKeysBySequence(h, a.addr, b.addr);
      }
      if Same(h, a, b) {
        LeaveGrows(h, m, a.addr, b.addr, r.visited);
      }
    }
  }

  /** Entering an object of height `r + 1`: its new entry is trusted below it. */
  lemma EnterTrusted(h: Heap, m: map<nat, nat>, x: nat, y: nat, r: nat)
    requires Trusted(h, m, r) && Acyclic(h, Ref(x)) && Height(h, Ref(x)) == r + 1
    ensures Trusted(h, m[x := y], r)
  {
    var m1 := m[x := y];
    forall z ensures TrustedAt(h, m1, r, z) {
      assert TrustedAt(h, m, r, z);
    }
  }

  /** Leaving an object that compared equal: the entry made for it is an equal pair. */
  lemma LeaveGrows(h: Heap, m: map<nat, nat>, x: nat, y: nat, m': map<nat, nat>)
    requires Grows(h, m[x := y], m') && Paired(h, x, y)
    ensures Grows(h, m, m')
  {
    forall z ensures GrowsAt(h, m, m', z) {
      assert GrowsAt(h, m[x := y], m', z);
    }
  }

  /** The elements from index `i` on are pairwise `Same`. */
  ghost predicate SameFrom(h: Heap, a1: nat, a2: nat, i: nat)
    requires WellFormed(h) && a1 < |h| && a2 < |h| && h[a1].Arr? && h[a2].Arr?
    requires |h[a1].elems| == |h[a2].elems| && Acyclic(h, Ref(a1))
  {
    ChildHeights(h, a1);
    forall j :: i <= j < |h[a1].elems| ==> Same(h, h[a1].elems[j], h[a2].elems[j])
  }

  /** The keys from the `j`-th on of the left object are keys of the right one with `Same` values. */
  ghost predicate SameKeysFrom(h: Heap, a1: nat, a2: nat, j: nat)
    requires WellFormed(h) && a1 < |h| && a2 < |h| && h[a1].Rec? && h[a2].Rec? && Acyclic(h, Ref(a1))
  {
    ChildHeights(h, a1);
    var n1, n2 := h[a1], h[a2];
    assert ObjOk(h, n1);
    forall t :: j <= t < |n1.keys| ==>
      n1.keys[t] in n2.props && Same(h, n1.props[n1.keys[t]], n2.props[n1.keys[t]])
  }

  /** One step of `EqualElems`: compare the elements at `i`, and go on only when they are equal. */
  lemma ElemsStep(h: Heap, a1: nat, a2: nat, i: nat, m: map<nat, nat>, stack: nat, o: Outcome, m': map<nat, nat>)
    requires WellFormed(h) && a1 < |h| && a2 < |h| && h[a1].Arr? && h[a2].Arr?
    requires i < |h[a1].elems| && i < |h[a2].elems| && stack > 0
    requires Run(o, m') == Equal(h, h[a1].elems[i], h[a2].elems[i], m, stack - 1)
    ensures o != Returned(true) ==> EqualElems(h, a1, a2, i, m, stack) == Run(o, m')
    ensures o == Returned(true) ==> EqualElems(h, a1, a2, i, m, stack) == EqualElems(h, a1, a2, i + 1, m', stack)
  {
  }

  /** Where `EqualElems` stops without comparing: past the end, or with no stack left. */
  lemma ElemsStop(h: Heap, a1: nat, a2: nat, i: nat, m: map<nat, nat>, stack: nat)
    requires WellFormed(h) && a1 < |h| && a2 < |h| && h[a1].Arr? && h[a2].Arr?
    ensures i >= |h[a1].elems| || i >= |h[a2].elems| ==> EqualElems(h, a1, a2, i, m, stack) == Run(Returned(true), m)
    ensures i < |h[a1].elems| && i < |h[a2].elems| && stack == 0 ==> EqualElems(h, a1, a2, i, m, stack) == Run(StackOverflow, m)
  {
  }

  /** One step of `EqualKeys`: compare the values of the `j`-th key, and go on only when they are equal. */
  lemma KeysStep(h: Heap, a1: nat, a2: nat, j: nat, m: map<nat, nat>, stack: nat, o: Outcome, m': map<nat, nat>)
    requires WellFormed(h) && a1 < |h| && a2 < |h| && h[a1].Rec? && h[a2].Rec?
    requires j < |h[a1].keys| && h[a1].keys[j] in h[a2].keys && stack > 0
    requires h[a1].keys[j] in h[a1].props && h[a1].keys[j] in h[a2].props
    requires Run(o, m') == Equal(h, h[a1].props[h[a1].keys[j]], h[a2].props[h[a1].keys[j]], m, stack - 1)
    ensures o != Returned(true) ==> EqualKeys(h, a1, a2, j, m, stack) == Run(o, m')
    ensures o == Returned(true) ==> EqualKeys(h, a1, a2, j, m, stack) == EqualKeys(h, a1, a2, j + 1, m', stack)
  {
  }

  /** A key of an object of a well-formed heap has a value, and it points into the heap. */
  lemma KeyValue(h: Heap, a: nat, k: string)
    requires WellFormed(h) && a < |h| && h[a].Rec? && k in h[a].keys
    ensures k in h[a].props && Valid(h, h[a].props[k])
  {
    assert ObjOk(h, h[a]);
  }

  /** Where `EqualKeys` stops without comparing: past the last key, at a key the right object lacks, or with no stack left. */
  lemma KeysStop(h: Heap, a1: nat, a2: nat, j: nat, m: map<nat, nat>, stack: nat)
    requires WellFormed(h) && a1 < |h| && a2 < |h| && h[a1].Rec? && h[a2].Rec?
    ensures j >= |h[a1].keys| ==> EqualKeys(h, a1, a2, j, m, stack) == Run(Returned(true), m)
    ensures j < |h[a1].keys| && h[a1].keys[j] !in h[a2].keys ==> EqualKeys(h, a1, a2, j, m, stack) == Run(Returned(false), m)
    ensures j < |h[a1].keys| && h[a1].keys[j] in h[a2].keys && stack == 0 ==> EqualKeys(h, a1, a2, j, m, stack) == Run(StackOverflow, m)
  {
  }

  /**
    How the answer of one step follows from the answers of its two parts: the
    first comparison `r` and, only when it holds, the rest of the loop.
   */
  lemma StepAnswer(h: Heap, m: map<nat, nat>, r: Run, rest: Run, whole: Run, s: bool, sRest: bool)
    requires r.outcome == Returned(s) && (s ==> Grows(h, m, r.visited))
    requires s ==> rest.outcome == Returned(sRest) && (sRest ==> Grows(h, r.visited, rest.visited))
    requires whole == if r.outcome != Returned(true) then r else rest
    ensures whole.outcome == Returned(s && sRest)
    ensures s && sRest ==> Grows(h, m, whole.visited)
  {
    if s && sRest {
      GrowsTransitive(h, m, r.visited, rest.visited);
    }
  }

  /** `SameFrom` at `i` is the pair at `i` and `SameFrom` at `i + 1`. */
  lemma SameFromStep(h: Heap, a1: nat, a2: nat, i: nat)
    requires WellFormed(h) && a1 < |h| && a2 < |h| && h[a1].Arr? && h[a2].Arr?
    requires |h[a1].elems| == |h[a2].elems| && Acyclic(h, Ref(a1)) && i < |h[a1].elems|
    ensures Acyclic(h, h[a1].elems[i])
    ensures SameFrom(h, a1, a2, i) == (Same(h, h[a1].elems[i], h[a2].elems[i]) && SameFrom(h, a1, a2, i + 1))
  {
    ChildHeights(h, a1);
  }

  lemma {:induction false} EqualElemsIsSame(h: Heap, a1: nat, a2: nat, i: nat, m: map<nat, nat>, stack: nat, n: nat)
    requires WellFormed(h) && a1 < |h| && a2 < |h| && h[a1].Arr? && h[a2].Arr?
    requires |h[a1].elems| == |h[a2].elems| && i <= |h[a1].elems|
    requires Acyclic(h, Ref(a1)) && n == Height(h, Ref(a1)) && n <= stack && Trusted(h, m, n - 1)
    ensures EqualElems(h, a1, a2, i, m, stack).outcome == Returned(SameFrom(h, a1, a2, i))
    ensures SameFrom(h, a1, a2, i) ==> Grows(h, m, EqualElems(h, a1, a2, i, m, stack).visited)
    decreases stack, 0, |h[a1].elems| - i, 1
  {
    var es1, es2 := h[a1].elems, h[a2].elems;
    if i < |es1| {
      var c, d := es1[i], es2[i];
      ElemHeight(h, a1, i);
      assert Valid(h, c) && Valid(h, d) by {
        assert ObjOk(h, h[a1]) && ObjOk(h, h[a2]);
      }
      var r := Equal(h, c, d, m, stack - 1);
      ChildIsSame(h, c, d, m, stack, n - 1);
      RestElemsIsSame(h, a1, a2, i, m, r, stack, n);
      ElemsCombine(h, a1, a2, i, m, stack, r, Same(h, c, d), EqualElems(h, a1, a2, i + 1, r.visited, stack), SameFrom(h, a1, a2, i + 1));
    } else {
      assert SameFrom(h, a1, a2, i);
    }
  }

  /** The elements after index `i`, once the elements at `i` have compared equal. */
  lemma {:induction false} RestElemsIsSame(h: Heap, a1: nat, a2: nat, i: nat, m: map<nat, nat>, r: Run, stack: nat, n: nat)
    requires WellFormed(h) && a1 < |h| && a2 < |h| && h[a1].Arr? && h[a2].Arr?
    requires |h[a1].elems| == |h[a2].elems| && i < |h[a1].elems|
    requires Acyclic(h, Ref(a1)) && n == Height(h, Ref(a1)) && n <= stack && Trusted(h, m, n - 1)
    ensures Grows(h, m, r.visited) ==>
      var rest := EqualElems(h, a1, a2, i + 1, r.visited, stack);
      rest.outcome == Returned(SameFrom(h, a1, a2, i + 1))
      && (SameFrom(h, a1, a2, i + 1) ==> Grows(h, r.visited, rest.visited))
    decreases stack, 0, |h[a1].elems| - i, 0
  {
    if Grows(h, m, r.visited) {
      TrustedGrows(h, m, r.visited, n - 1);
      EqualElemsIsSame(h, a1, a2, i + 1, r.visited, stack, n);
    }
  }

  /** How the answer at index `i` follows from the answers for the elements there and for the elements after it. */
  lemma ElemsCombine(h: Heap, a1: nat, a2: nat, i: nat, m: map<nat, nat>, stack: nat, r: Run, s: bool, rest: Run, sRest: bool)
    requires WellFormed(h) && a1 < |h| && a2 < |h| && h[a1].Arr? && h[a2].Arr?
    requires |h[a1].elems| == |h[a2].elems| && i < |h[a1].elems| && Acyclic(h, Ref(a1)) && stack > 0
    requires Acyclic(h, h[a1].elems[i])
    requires r == Equal(h, h[a1].elems[i], h[a2].elems[i], m, stack - 1)
    requires s == Same(h, h[a1].elems[i], h[a2].elems[i])
    requires r.outcome == Returned(s) && (s ==> Grows(h, m, r.visited))
    requires rest == EqualElems(h, a1, a2, i + 1, r.visited, stack) && sRest == SameFrom(h, a1, a2, i + 1)
    requires s ==> rest.outcome == Returned(sRest) && (sRest ==> Grows(h, r.visited, rest.visited))
    ensures EqualElems(h, a1, a2, i, m, stack).outcome == Returned(SameFrom(h, a1, a2, i))
    ensures SameFrom(h, a1, a2, i) ==> Grows(h, m, EqualElems(h, a1, a2, i, m, stack).visited)
  {
    SameFromStep(h, a1, a2, i);
    ElemsStep(h, a1, a2, i, m, stack, r.outcome, r.visited);
    StepAnswer(h, m, r, rest, EqualElems(h, a1, a2, i, m, stack), s, sRest);
  }

  /** `SameKeysFrom` at `j` is the pair under the `j`-th key and `SameKeysFrom` at `j + 1`. */
  lemma SameKeysFromStep(h: Heap, a1: nat, a2: nat, j: nat)
    requires WellFormed(h) && a1 < |h| && a2 < |h| && h[a1].Rec? && h[a2].Rec? && Acyclic(h, Ref(a1))
    requires j < |h[a1].keys|
    ensures h[a1].keys[j] in h[a1].props && Acyclic(h, h[a1].props[h[a1].keys[j]])
    ensures var key := h[a1].keys[j];
      SameKeysFrom(h, a1, a2, j)
      == (key in h[a2].props && Same(h, h[a1].props[key], h[a2].props[key]) && SameKeysFrom(h, a1, a2, j + 1))
  {
    ChildHeights(h, a1);
    var n1, n2 := h[a1], h[a2];
    assert ObjOk(h, n1);
    var key := n1.keys[j];
    if key in n2.props && Same(h, n1.props[key], n2.props[key]) && SameKeysFrom(h, a1, a2, j + 1) {
      forall t | j <= t < |n1.keys| ensures n1.keys[t] in n2.props && Same(h, n1.props[n1.keys[t]], n2.props[n1.keys[t]]) {
        if t == j {
          assert n1.keys[t] == key;
        }
      }
    }
  }

  lemma {:induction false} EqualKeysIsSame(h: Heap, a1: nat, a2: nat, j: nat, m: map<nat, nat>, stack: nat, n: nat)
    requires WellFormed(h) && a1 < |h| && a2 < |h| && h[a1].Rec? && h[a2].Rec?
    requires j <= |h[a1].keys|
    requires Acyclic(h, Ref(a1)) && n == Height(h, Ref(a1)) && n <= stack && Trusted(h, m, n - 1)
    ensures EqualKeys(h, a1, a2, j, m, stack).outcome == Returned(SameKeysFrom(h, a1, a2, j))
    ensures SameKeysFrom(h, a1, a2, j) ==> Grows(h, m, EqualKeys(h, a1, a2, j, m, stack).visited)
    decreases stack, 0, |h[a1].keys| - j, 2
  {
    if j < |h[a1].keys| {
      var key := h[a1].keys[j];
      SameKeysFromStep(h, a1, a2, j);
      if key in h[a2].keys {
        EqualKeyIsSame(h, a1, a2, j, m, stack, n);
      } else {
        assert key !in h[a2].props by {
          assert ObjOk(h, h[a2]);
        }
      }
    } else {
      assert SameKeysFrom(h, a1, a2, j);
    }
  }

  /** The step of `EqualKeysIsSame` at a key the right-hand object has. */
  lemma {:induction false} EqualKeyIsSame(h: Heap, a1: nat, a2: nat, j: nat, m: map<nat, nat>, stack: nat, n: nat)
    requires WellFormed(h) && a1 < |h| && a2 < |h| && h[a1].Rec? && h[a2].Rec?
    requires j < |h[a1].keys| && h[a1].keys[j] in h[a2].keys
    requires Acyclic(h, Ref(a1)) && n == Height(h, Ref(a1)) && n <= stack && Trusted(h, m, n - 1)
    ensures EqualKeys(h, a1, a2, j, m, stack).outcome == Returned(SameKeysFrom(h, a1, a2, j))
    ensures SameKeysFrom(h, a1, a2, j) ==> Grows(h, m, EqualKeys(h, a1, a2, j, m, stack).visited)
    decreases stack, 0, |h[a1].keys| - j, 1
  {
    var key := h[a1].keys[j];
    KeyFacts(h, a1, a2, j);
    var c, d := h[a1].props[key], h[a2].props[key];
    var r := Equal(h, c, d, m, stack - 1);
    ChildIsSame(h, c, d, m, stack, n - 1);
    RestKeysIsSame(h, a1, a2, j, m, r, stack, n);
    KeysCombine(h, a1, a2, j, m, stack, r, Same(h, c, d), EqualKeys(h, a1, a2, j + 1, r.visited, stack), SameKeysFrom(h, a1, a2, j + 1));
  }

  /** The `j`-th key of the left object is a key of both objects, and its value is acyclic. */
  lemma KeyFacts(h: Heap, a1: nat, a2: nat, j: nat)
    requires WellFormed(h) && a1 < |h| && a2 < |h| && h[a1].Rec? && h[a2].Rec? && Acyclic(h, Ref(a1))
    requires j < |h[a1].keys| && h[a1].keys[j] in h[a2].keys
    ensures h[a1].keys[j] in h[a1].props && h[a1].keys[j] in h[a2].props
    ensures Acyclic(h, h[a1].props[h[a1].keys[j]]) && Height(h, h[a1].props[h[a1].keys[j]]) < Height(h, Ref(a1))
    ensures Valid(h, h[a1].props[h[a1].keys[j]]) && Valid(h, h[a2].props[h[a1].keys[j]])
  {
    assert ObjOk(h, h[a1]) && ObjOk(h, h[a2]);
    PropHeight(h, a1, h[a1].keys[j]);
    assert Valid(h, h[a1].props[h[a1].keys[j]]) && Valid(h, h[a2].props[h[a1].keys[j]]);
  }

  /**
    A value inside an object of height `t + 1`, compared with `d` while the
    map is trusted below that object.
   */
  lemma {:induction false} ChildIsSame(h: Heap, c: Value, d: Value, m: map<nat, nat>, stack: nat, t: nat)
    requires WellFormed(h) && Valid(h, c) && Valid(h, d)
    requires Acyclic(h, c) && Height(h, c) <= t < stack && Trusted(h, m, t)
    ensures var r := Equal(h, c, d, m, stack - 1);
      r.outcome == Returned(Same(h, c, d)) && (Same(h, c, d) ==> Grows(h, m, r.visited))
    decreases stack, 0, 0, 0
  {
    TrustedLower(h, m, t, Height(h, c));
    EqualIsSame(h, c, d, m, stack - 1);
  }

  /** The keys after the `j`-th, once the value under it has compared equal. */
  lemma {:induction false} RestKeysIsSame(h: Heap, a1: nat, a2: nat, j: nat, m: map<nat, nat>, r: Run, stack: nat, n: nat)
    requires WellFormed(h) && a1 < |h| && a2 < |h| && h[a1].Rec? && h[a2].Rec?
    requires j < |h[a1].keys|
    requires Acyclic(h, Ref(a1)) && n == Height(h, Ref(a1)) && n <= stack && Trusted(h, m, n - 1)
    ensures Grows(h, m, r.visited) ==>
      var rest := EqualKeys(h, a1, a2, j + 1, r.visited, stack);
      rest.outcome == Returned(SameKeysFrom(h, a1, a2, j + 1))
      && (SameKeysFrom(h, a1, a2, j + 1) ==> Grows(h, r.visited, rest.visited))
    decreases stack, 0, |h[a1].keys| - j, 0
  {
    if Grows(h, m, r.visited) {
      TrustedGrows(h, m, r.visited, n - 1);
      EqualKeysIsSame(h, a1, a2, j + 1, r.visited, stack, n);
    }
  }

  /** How the answer at the `j`-th key follows from the answers for its value and for the keys after it. */
  lemma KeysCombine(h: Heap, a1: nat, a2: nat, j: nat, m: map<nat, nat>, stack: nat, r: Run, s: bool, rest: Run, sRest: bool)
    requires WellFormed(h) && a1 < |h| && a2 < |h| && h[a1].Rec? && h[a2].Rec?
    requires j < |h[a1].keys| && h[a1].keys[j] in h[a2].keys && Acyclic(h, Ref(a1)) && stack > 0
    requires h[a1].keys[j] in h[a1].props && h[a1].keys[j] in h[a2].props
    requires Acyclic(h, h[a1].props[h[a1].keys[j]])
    requires r == Equal(h, h[a1].props[h[a1].keys[j]], h[a2].props[h[a1].keys[j]], m, stack - 1)
    requires s == Same(h, h[a1].props[h[a1].keys[j]], h[a2].props[h[a1].keys[j]])
    requires r.outcome == Returned(s) && (s ==> Grows(h, m, r.visited))
    requires rest == EqualKeys(h, a1, a2, j + 1, r.visited, stack) && sRest == SameKeysFrom(h, a1, a2, j + 1)
    requires s ==> rest.outcome == Returned(sRest) && (sRest ==> Grows(h, r.visited, rest.visited))
    ensures EqualKeys(h, a1, a2, j, m, stack).outcome == Returned(SameKeysFrom(h, a1, a2, j))
    ensures SameKeysFrom(h, a1, a2, j) ==> Grows(h, m, EqualKeys(h, a1, a2, j, m, stack).visited)
  {
    SameKeysFromStep(h, a1, a2, j);
    KeysStep(h, a1, a2, j, m, stack, r.outcome, r.visited);
    StepAnswer(h, m, r, rest, EqualKeys(h, a1, a2, j, m, stack), s, sRest);
  }

  /** Walking the key sequence of the left object checks every one of its properties. */
  lemma SameKeysBySequence(h: Heap, a1: nat, a2: nat)
    requires WellFormed(h) && a1 < |h| && a2 < |h| && h[a1].Rec? && h[a2].Rec? && Acyclic(h, Ref(a1))
    ensures (ChildHeights(h, a1);
      var n1, n2 := h[a1], h[a2];
      SameKeysFrom(h, a1, a2, 0)
      <==> (forall k :: k in n1.props ==> k in n2.props && Same(h, n1.props[k], n2.props[k])))
  {
  }

  // ---------------------------------------------------------------------
  // What a call decides, branch by branch

  /** Line 3: values whose `typeof` differs are never equal, and nothing is recorded. */
  lemma TypeOfDiffers(h: Heap, a: Value, b: Value, m: map<nat, nat>, stack: nat)
    requires WellFormed(h) && Valid(h, a) && Valid(h, b) && TypeOf(h, a) != TypeOf(h, b)
    ensures Equal(h, a, b, m, stack) == Run(Returned(false), m)
  {
  }

  /** Lines 4 and 9: every value equals itself, NaN included, without descending. */
  lemma Reflexive(h: Heap, a: Value, m: map<nat, nat>, stack: nat)
    requires WellFormed(h) && Valid(h, a)
    ensures Equal(h, a, a, m, stack) == Run(Returned(true), m)
  {
  }

  /**
    Lines 4-9 on primitives: two primitives are equal exactly when they are the
    same value, so two NaNs are equal and distinct values of one type are not.
   */
  lemma Primitives(h: Heap, a: Value, b: Value, m: map<nat, nat>, stack: nat)
    requires WellFormed(h) && !a.Ref? && !b.Ref?
    ensures Equal(h, a, b, m, stack) == Run(Returned(a == b), m)
  {
  }

  /** Lines 3, 11 and 30: `null` is equal to no object, on either side. */
  lemma NullIsNoObject(h: Heap, b: Value, m: map<nat, nat>, stack: nat)
    requires WellFormed(h) && Valid(h, b) && b.Ref?
    ensures Equal(h, Null, b, m, stack) == Run(Returned(false), m)
    ensures Equal(h, b, Null, m, stack) == Run(Returned(false), m)
  {
  }

  /** Line 7: two Dates are equal when they are one object or their `getTime()` values are equal numbers. */
  lemma Dates(h: Heap, a: Value, b: Value, m: map<nat, nat>, stack: nat)
    requires WellFormed(h) && Valid(h, a) && Valid(h, b) && IsDate(h, a) && IsDate(h, b)
    ensures Equal(h, a, b, m, stack)
      == Run(Returned(a == b || SameTime(h[a.addr].kind.time, h[b.addr].kind.time)), m)
  {
  }

  /** Line 8: two RegExps are equal exactly when their sources and their flags are. */
  lemma RegExps(h: Heap, a: Value, b: Value, m: map<nat, nat>, stack: nat)
    requires WellFormed(h) && Valid(h, a) && Valid(h, b) && IsRegExp(h, a) && IsRegExp(h, b)
    ensures Equal(h, a, b, m, stack)
      == Run(Returned(h[a.addr].kind.source == h[b.addr].kind.source
                      && h[a.addr].kind.flags == h[b.addr].kind.flags), m)
  {
  }

  /** Lines 11-13: a pair the visited map already holds is accepted without descending. */
  lemma CycleGuard(h: Heap, a: Value, b: Value, m: map<nat, nat>, stack: nat)
    requires WellFormed(h) && Valid(h, a) && Valid(h, b) && a.Ref? && b.Ref?
    requires TypeOf(h, a) == "object" && TypeOf(h, b) == "object"
    requires !(IsDate(h, a) && IsDate(h, b)) && !(IsRegExp(h, a) && IsRegExp(h, b))
    requires a.addr in m && m[a.addr] == b.addr
    ensures Equal(h, a, b, m, stack) == Run(Returned(true), m)
  {
  }

  /** Lines 15 and 31: arrays of different lengths skip the array branch and are unequal. */
  lemma ArrayLengthsDiffer(h: Heap, a: Value, b: Value, m: map<nat, nat>, stack: nat)
    requires WellFormed(h) && Valid(h, a) && Valid(h, b) && IsArray(h, a) && IsArray(h, b)
    requires |h[a.addr].elems| != |h[b.addr].elems| && !(a.addr in m && m[a.addr] == b.addr)
    ensures Equal(h, a, b, m, stack) == Run(Returned(false), m)
  {
  }

  /** Line 31: an array is never equal to anything that is not an array. */
  lemma ArrayVsNonArray(h: Heap, a: Value, b: Value, m: map<nat, nat>, stack: nat)
    requires WellFormed(h) && Valid(h, a) && Valid(h, b) && IsArray(h, a) != IsArray(h, b)
    requires !(a.Ref? && a.addr in m && b.Ref? && m[a.addr] == b.addr)
    ensures Equal(h, a, b, m, stack) == Run(Returned(false), m)
  {
  }

  /** The empty map a top-level call starts from holds no entries to distrust. */
  lemma EmptyTrusted(h: Heap, r: nat)
    ensures Trusted(h, map[], r)
  {
  }

  /** A top-level comparison whose left side is acyclic ends, with the answer `Same` gives. */
  lemma DeepEqualIsSame(h: Heap, a: Value, b: Value, stack: nat)
    requires WellFormed(h) && Valid(h, a) && Valid(h, b) && Acyclic(h, a) && Height(h, a) <= stack
    ensures DeepEqual(h, a, b, stack) == Returned(Same(h, a, b))
  {
    EmptyTrusted(h, Height(h, a));
    EqualIsSame(h, a, b, map[], stack);
  }

  /**
    Lines 15-28 and 31 at the top level: with an acyclic left side and stack
    enough for it, two arrays are equal exactly when their lengths agree and
    their elements are pairwise equal, each pair compared on its own.
   */
  lemma Arrays(h: Heap, a: Value, b: Value, stack: nat)
    requires WellFormed(h) && Valid(h, a) && Valid(h, b) && IsArray(h, a) && IsArray(h, b)
    requires Acyclic(h, a) && Height(h, a) <= stack
    ensures var es1, es2 := h[a.addr].elems, h[b.addr].elems;
      DeepEqual(h, a, b, stack) == Returned(|es1| == |es2| && forall i :: 0 <= i < |es1| ==>
        Valid(h, es1[i]) && Valid(h, es2[i]) && DeepEqual(h, es1[i], es2[i], stack) == Returned(true))
  {
    var es1, es2 := h[a.addr].elems, h[b.addr].elems;
    assert ObjOk(h, h[a.addr]) && ObjOk(h, h[b.addr]);
    DeepEqualIsSame(h, a, b, stack);
    ChildHeights(h, a.addr);
    if a == b {
      forall i | 0 <= i < |es1| ensures DeepEqual(h, es1[i], es1[i], stack) == Returned(true) {
        Reflexive(h, es1[i], map[], stack);
      }
    } else if |es1| == |es2| {
      forall i | 0 <= i < |es1|
        ensures DeepEqual(h, es1[i], es2[i], stack) == Returned(Same(h, es1[i], es2[i]))
      {
        DeepEqualIsSame(h, es1[i], es2[i], stack);
      }
    }
  }

  /**
    Lines 30-44 at the top level: with an acyclic left side and stack enough
    for it, two non-array objects that are `instanceof Object` and that no
    earlier line decides are equal
    exactly when they have as many own keys and every key of the left one is a
    key of the right one with an equal value. Key order plays no part.
   */
  lemma Objects(h: Heap, a: Value, b: Value, stack: nat)
    requires WellFormed(h) && Valid(h, a) && Valid(h, b)
    requires InstanceOfObject(h, a) && InstanceOfObject(h, b) && !IsArray(h, a) && !IsArray(h, b)
    requires TypeOf(h, a) == TypeOf(h, b)
    requires !(IsDate(h, a) && IsDate(h, b)) && !(IsRegExp(h, a) && IsRegExp(h, b))
    requires Acyclic(h, a) && Height(h, a) <= stack
    ensures var n1, n2 := h[a.addr], h[b.addr];
      DeepEqual(h, a, b, stack) == Returned(|n1.keys| == |n2.keys| && forall k :: k in n1.props ==>
        k in n2.props && Valid(h, n1.props[k]) && Valid(h, n2.props[k])
        && DeepEqual(h, n1.props[k], n2.props[k], stack) == Returned(true))
  {
    var n1, n2 := h[a.addr], h[b.addr];
    assert ObjOk(h, n1) && ObjOk(h, n2);
    DeepEqualIsSame(h, a, b, stack);
    ChildHeights(h, a.addr);
    if a == b {
      forall k | k in n1.props ensures DeepEqual(h, n1.props[k], n1.props[k], stack) == Returned(true) {
        Reflexive(h, n1.props[k], map[], stack);
      }
    } else {
      forall k | k in n1.props && k in n2.props
        ensures DeepEqual(h, n1.props[k], n2.props[k], stack) == Returned(Same(h, n1.props[k], n2.props[k]))
      {
        DeepEqualIsSame(h, n1.props[k], n2.props[k], stack);
      }
    }
  }

  // ---------------------------------------------------------------------
  // Particular graphs

  /** `{x: 1, y: 2}` and `{y: 2, x: 1}` */
  const Reordered: Heap := [
    Rec(Plain, ["x", "y"], map["x" := Num(1), "y" := Num(2)]),
    Rec(Plain, ["y", "x"], map["y" := Num(2), "x" := Num(1)])]

  lemma ReorderedWellFormed()
    ensures WellFormed(Reordered)
  {
  }

  /** Key order is irrelevant: the two objects are equal. */
  lemma ReorderedKeysAreEqual(stack: nat)
    requires stack >= 1
    ensures WellFormed(Reordered) && DeepEqual(Reordered, Ref(0), Ref(1), stack) == Returned(true)
  {
    ReorderedWellFormed();
    var h := Reordered;
    var m := map[0 := 1];
    assert LeafVerdict(h, Ref(0), Ref(1)) == Undecided;
    assert h[1].keys == ["y", "x"] && "x" in h[1].keys && "y" in h[1].keys;
    Primitives(h, Num(1), Num(1), m, stack - 1);
    Primitives(h, Num(2), Num(2), m, stack - 1);
    assert EqualKeys(h, 0, 1, 1, m, stack) == Run(Returned(true), m);
    assert EqualKeys(h, 0, 1, 0, m, stack) == Run(Returned(true), m);
  }

  /** Two self-loops, `a = {s: a}` and `b = {s: b}` */
  const SelfLoops: Heap := [
    Rec(Plain, ["s"], map["s" := Ref(0)]),
    Rec(Plain, ["s"], map["s" := Ref(1)])]

  /** The second visit of the pair meets the visited entry made by the first, so the loops are equal. */
  lemma SelfLoopsAreEqual(stack: nat)
    requires stack >= 1
    ensures WellFormed(SelfLoops) && DeepEqual(SelfLoops, Ref(0), Ref(1), stack) == Returned(true)
  {
    var h := SelfLoops;
    assert ObjOk(h, h[0]) && ObjOk(h, h[1]);
    var m := map[0 := 1];
    assert Equal(h, Ref(0), Ref(1), m, stack - 1) == Run(Returned(true), m);
    assert EqualKeys(h, 0, 1, 1, m, stack) == Run(Returned(true), m);
    assert EqualKeys(h, 0, 1, 0, m, stack) == Run(Returned(true), m);
  }

  /** `new Date(0)` and `{}` */
  const DateAndEmpty: Heap := [Rec(Date(Ms(0)), [], map[]), Rec(Plain, [], map[])]

  /** A Date and a plain object reach the key comparison of line 30 and, with no keys on either side, are equal. */
  lemma DateEqualsEmptyObject(stack: nat)
    ensures WellFormed(DateAndEmpty) && DeepEqual(DateAndEmpty, Ref(0), Ref(1), stack) == Returned(true)
  {
    var h := DateAndEmpty;
    assert ObjOk(h, h[0]) && ObjOk(h, h[1]);
    assert LeafVerdict(h, Ref(0), Ref(1)) == Undecided;
    assert EqualKeys(h, 0, 1, 0, map[0 := 1], stack) == Run(Returned(true), map[0 := 1]);
  }

  /** A self-loop `a = {x: a}` (address 0) and a two-cycle `b = {x: c}`, `c = {x: b}` (addresses 1, 2) */
  const LoopAndTwoCycle: Heap := [
    Rec(Plain, ["x"], map["x" := Ref(0)]),
    Rec(Plain, ["x"], map["x" := Ref(2)]),
    Rec(Plain, ["x"], map["x" := Ref(1)])]

  lemma LoopAndTwoCycleWellFormed()
    ensures WellFormed(LoopAndTwoCycle)
  {
  }

  /**
    Each step overwrites the partner of `a` in the visited map, so the guard
    never fires: comparing `a` with `b` or `c` overflows the stack however
    large it is.
   */
  lemma {:induction false} LoopAgainstCycleOverflows(t: nat, m: map<nat, nat>, stack: nat)
    requires t == 1 || t == 2
    requires !(0 in m && m[0] == t)
    ensures WellFormed(LoopAndTwoCycle)
    ensures Equal(LoopAndTwoCycle, Ref(0), Ref(t), m, stack).outcome == StackOverflow
    decreases stack
  {
    LoopAndTwoCycleWellFormed();
    var h := LoopAndTwoCycle;
    var m1 := m[0 := t];
    if stack > 0 {
      LoopAgainstCycleOverflows(3 - t, m1, stack - 1);
    }
    assert EqualKeys(h, 0, t, 0, m1, stack).outcome == StackOverflow;
  }

  /** `deepEquality(a, b)` does not terminate. */
  lemma LoopAndTwoCycleDiverge(stack: nat)
    ensures WellFormed(LoopAndTwoCycle) && DeepEqual(LoopAndTwoCycle, Ref(0), Ref(1), stack) == StackOverflow
  {
    LoopAgainstCycleOverflows(1, map[], stack);
  }

  /** `f.self = f` (address 0) and `g.self = g` (address 1), two functions. */
  const FunctionLoops: Heap := [
    Rec(Func, ["self"], map["self" := Ref(0)]),
    Rec(Func, ["self"], map["self" := Ref(1)])]

  lemma FunctionLoopsWellFormed()
    ensures WellFormed(FunctionLoops)
  {
  }

  /**
    Line 11 consults the map only when `typeof obj1 === "object"`, while line
    30 lets functions through: a pair of functions the map already holds is
    compared again, so `f` against `g` overflows the stack whatever the map.
   */
  lemma {:induction false} FunctionLoopsOverflow(m: map<nat, nat>, stack: nat)
    ensures WellFormed(FunctionLoops)
    ensures Equal(FunctionLoops, Ref(0), Ref(1), m, stack).outcome == StackOverflow
    decreases stack
  {
    FunctionLoopsWellFormed();
    var h := FunctionLoops;
    var m1 := m[0 := 1];
    assert TypeOf(h, Ref(0)) == "function" && LeafVerdict(h, Ref(0), Ref(1)) == Undecided;
    if stack > 0 {
      FunctionLoopsOverflow(m1, stack - 1);
    }
    assert EqualKeys(h, 0, 1, 0, m1, stack).outcome == StackOverflow;
  }

  /** `deepEquality(f, g)` does not terminate, though the plain self-loops are equal (`SelfLoopsAreEqual`). */
  lemma FunctionSelfLoopsDiverge(stack: nat)
    ensures WellFormed(FunctionLoops) && DeepEqual(FunctionLoops, Ref(0), Ref(1), stack) == StackOverflow
  {
    FunctionLoopsOverflow(map[], stack);
  }
}
