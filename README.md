# js-snippets core: deep equality, deep clone, memoize

A Dafny model of three helpers from `src/core-js` of js-snippets, with proofs
about them:

- `deepEquality(obj1, obj2, map)` decides whether two JavaScript values are
  deeply equal. It dispatches on `typeof`, identity, Date, RegExp, NaN, array
  and object. It keeps a `WeakMap` from a left-hand object to the right-hand
  object it is being compared with. It accepts without descending a pair of
  non-function objects, other than two Dates or two RegExps, that the map
  already holds (the cycle guard).
- `deepClone(obj)` rebuilds a value. Primitives and functions pass through
  unchanged. Dates and RegExps are re-created, arrays are mapped element by
  element, and plain objects are rebuilt key by key.
- `memoize(func)` wraps `func` with a cache. The cache is keyed by
  `JSON.stringify` of the argument list and filled on a miss.

## How the model is built

`js_values.dfy` (module `JsValues`) holds JavaScript values and an explicit
heap:

- A value is `undefined`, `null`, a boolean, an integer, `NaN`, a string, a
  symbol or a reference `Ref(addr)` into a heap.
- A heap is a sequence of objects. Each object is an array of values, or an
  object of some kind with its own enumerable keys in `Object.keys` order and
  their values.
- The kinds are plain object, function, Date, RegExp, and an object made by
  `Object.create(null)`.
- `===` on objects is equality of addresses, and allocation appends to the
  heap (`JsHeap.Alloc`).
- `Bounded`, `Acyclic` and `Height` say how long the chains of references
  from a value are.

`deep_equality.dfy` (module `DeepEquality`):

- `Equal` is the comparison as written. It threads the visited map through
  every call and returns the map as it leaves it.
- The method `DeepEquality` runs it over a `VisitedMap` object that it
  mutates in place. Its element and key loops are the methods
  `CompareElements` and `CompareKeys`.
- Every call gets a call-stack budget. A call with nothing left to descend
  with ends in `StackOverflow`, the `RangeError` the host would throw.
- `Same` is an independent definition of deep equality on an acyclic
  left-hand graph, without any visited map.
- `EqualIsSame` proves that on such graphs the code terminates and agrees
  with `Same`: the visited map never makes it accept an unequal pair. It
  rests on two invariants of the map, `Trusted` and `Grows`.
- The lemmas after it state, branch by branch, what a call decides.

`deep_clone.dfy` (module `DeepClone`):

- `Clone` is the copy as written. It reads the original graph in `h0` and
  allocates into a heap that extends it.
- The method `DeepClone` and its loops `CloneArray` and `CloneObject` run it
  over a `JsHeap`.
- `Copied` independently describes a fresh structural copy. `CloneIsCopy`
  proves the code meets it.
- `CopyIsEqual` connects clone and equality: a copy compares deeply equal to
  its original. It gives the round trips `RoundTrip` and `DoubleRoundTrip`.

`memoize.dfy` (module `Memoize`):

- A wrapper returned by `memoize(func)` is a `Memoized` object. The calls
  update its `cache`.
- `Table` is the memo table that a history of calls describes, defined call
  by call. `Firsts` is the list of argument lists that `func` runs on.
- The class invariant says the cache is the table of the calls so far, and
  that `func` ran exactly on the calls that missed.

### Behaviour worth knowing

The model follows the code:

- Although it keeps a visited map, `deepEquality` does not always terminate
  on cyclic graphs. `map.set` (lines 17 and 32) overwrites the earlier
  partner of `obj1`, so a self-loop compared with a two-cycle never meets the
  guard. `LoopAndTwoCycleDiverge` proves the comparison overflows whatever
  the stack size.
- Functions are a second cause of non-termination. The guard of line 11 runs
  only when `typeof obj1 === "object"`, but line 30 lets functions through,
  line 32 records them and line 40 recurses. So `f.self = f`, `g.self = g`,
  `deepEquality(f, g)` overflows the stack (`FunctionSelfLoopsDiverge`), while
  the same loops on plain objects are equal (`SelfLoopsAreEqual`).
- `deepClone` keeps neither shared references nor cycles, because it has no
  visited map:
  - `SharingIsNotKept` shows that an array holding one object twice is
    cloned into an array holding two distinct objects.
  - On a cyclic graph the code recurses forever. The model of the clone is
    defined on acyclic input only.
- A Date and a plain object both reach the key comparison of line 30. With no
  own keys, `deepEquality(new Date(0), {})` is true
  (`DateEqualsEmptyObject`).
- `new Date(NaN).getTime()` is NaN, and NaN is not `===` to itself. So an
  invalid Date equals no other Date, and the clone round trip fails for it
  (`InvalidDateBreaksRoundTrip`). The round-trip lemmas require that no
  invalid Date is reachable (`DatesValid`).
- `newObj[key] = value` (deepClone.js line 14) creates no own key when the key
  is `"__proto__"`: the assignment runs the setter `Object.prototype`
  provides. An object with an own `"__proto__"` key, as
  `JSON.parse('{"__proto__": 5}')` makes, is cloned into an object without
  keys, and the two are unequal (`ProtoKeyBreaksRoundTrip`). The round-trip
  lemmas also require that no such key is reachable (`NoProtoKeys`).

## Model

| member | source | states |
|---|---|---|
| JsValues.TypeOf | src/core-js/deepEquality.js:3 | `typeof` gives one of the seven category strings, and "function" exactly for function objects |
| JsValues.SetProp | src/core-js/deepClone.js:14 | `newObj[key] = value` stores the value under the key and leaves every other key and value as it was. A key the object lacked goes last in the key order, and the object stays well formed. The key `"__proto__"` leaves the own keys and values as they were. |
| JsValues.JsHeap.Alloc | src/core-js/deepClone.js:12 | allocation appends the new object at a fresh address and leaves every existing object unchanged |
| DeepEquality.VisitedMap.constructor | src/core-js/deepEquality.js:1 | the default `new WeakMap()` starts with no entries |
| DeepEquality.VisitedMap.Set | src/core-js/deepEquality.js:17 | `map.set(obj1, obj2)` makes `obj2` the entry of `obj1`, replacing any earlier partner, and changes no other entry |
| DeepEquality.LeafVerdict | src/core-js/deepEquality.js:3-9 | lines 3-9 leave a pair undecided only if its `typeof` agrees, it is not one value, it is not two Dates, not two RegExps and not two NaNs |
| DeepEquality.Equal | src/core-js/deepEquality.js:1-47 | a call changes the visited map only through `map.set`: no entry is removed, and every entry it adds or replaces pairs two arrays of one length (line 17) or two non-array objects that are `instanceof Object` (line 32) |
| DeepEquality.EqualElems | src/core-js/deepEquality.js:19-27 | the element loop changes the visited map only through `map.set` of such pairs |
| DeepEquality.EqualKeys | src/core-js/deepEquality.js:39-43 | the key loop changes the visited map only through `map.set` of such pairs |
| DeepEquality.DeepEquality | src/core-js/deepEquality.js:1-47 | the recursive procedure, mutating the shared map, returns what `Equal` returns and leaves the map as `Equal` says |
| DeepEquality.CompareElements | src/core-js/deepEquality.js:19-27 | the index loop returns the outcome of comparing the elements in order, stopping at the first unequal pair, and leaves the map accordingly |
| DeepEquality.CompareElementAt | src/core-js/deepEquality.js:20-24 | one turn of the element loop: an unequal or overflowing pair at index `i` is the loop's outcome, and an equal pair hands on to index `i + 1` with the map the comparison left |
| DeepEquality.CompareKeys | src/core-js/deepEquality.js:39-43 | the key loop returns false at the first key of `obj1` missing from `obj2` or with an unequal value, otherwise true, and leaves the map accordingly |
| DeepEquality.CompareKeyAt | src/core-js/deepEquality.js:40 | one turn of the key loop: a key missing from `obj2`, an unequal value or an overflow is the loop's outcome, and an equal value hands on to the next key with the map the comparison left |
| DeepEquality.DeepEqualityTop | src/core-js/deepEquality.js:1 | a top-level call starts from an empty map and returns `DeepEqual` |
| DeepEquality.EqualIsSame | src/core-js/deepEquality.js:1-47 | on an acyclic left side with stack enough for its height, and a map whose entries are equal pairs or objects still being compared above, the comparison terminates with the answer of the map-free definition `Same`, and adds only equal pairs to the map |
| DeepEquality.DeepEqualIsSame | src/core-js/deepEquality.js:1-47 | a top-level comparison with an acyclic left side terminates with the answer `Same` gives |
| DeepEquality.TypeOfDiffers | src/core-js/deepEquality.js:3 | values whose `typeof` differs are unequal, e.g. 1 and "1" |
| DeepEquality.Reflexive | src/core-js/deepEquality.js:4-9 | every value equals itself, NaN included, without descending or touching the map |
| DeepEquality.Primitives | src/core-js/deepEquality.js:3-9 | two primitives are equal exactly when they are the same value, so NaN equals NaN and distinct values of one type are unequal |
| DeepEquality.NullIsNoObject | src/core-js/deepEquality.js:30-46 | `null` equals no object, on either side |
| DeepEquality.Dates | src/core-js/deepEquality.js:4-7 | two Dates are equal exactly when they are one object or their `getTime()` values are equal numbers |
| DeepEquality.RegExps | src/core-js/deepEquality.js:8 | two RegExps are equal exactly when both their sources and their flags are equal |
| DeepEquality.CycleGuard | src/core-js/deepEquality.js:11-13 | a pair of non-function objects, other than two Dates or two RegExps, that the map already holds is equal without descending |
| DeepEquality.ArrayLengthsDiffer | src/core-js/deepEquality.js:15-31 | arrays of different lengths skip the array branch and are unequal |
| DeepEquality.ArrayVsNonArray | src/core-js/deepEquality.js:30-31 | an array is never equal to a value that is not an array |
| DeepEquality.Arrays | src/core-js/deepEquality.js:15-28 | two arrays (acyclic left side) are equal exactly when they have the same length and their elements are pairwise equal in index order |
| DeepEquality.Objects | src/core-js/deepEquality.js:30-44 | two non-array objects that are `instanceof Object` and that lines 3-9 leave undecided (acyclic left side) are equal exactly when they have as many own keys and every key of the left one is a key of the right one with an equal value |
| DeepEquality.ReorderedKeysAreEqual | src/core-js/deepEquality.js:34-43 | `{x: 1, y: 2}` equals `{y: 2, x: 1}`: key order plays no part |
| DeepEquality.SelfLoopsAreEqual | src/core-js/deepEquality.js:11-32 | the self-loops `a = {s: a}` and `b = {s: b}` are equal, through the cycle guard |
| DeepEquality.DateEqualsEmptyObject | src/core-js/deepEquality.js:30-43 | `new Date(0)` equals `{}` |
| DeepEquality.LoopAgainstCycleOverflows | src/core-js/deepEquality.js:30-43 | comparing the self-loop `a = {x: a}` with either object of the two-cycle `b = {x: c}`, `c = {x: b}` overflows the stack unless the map already pairs them |
| DeepEquality.LoopAndTwoCycleDiverge | src/core-js/deepEquality.js:30-43 | `deepEquality(a, b)` on that pair overflows the stack whatever its size: the comparison does not terminate |
| DeepEquality.FunctionLoopsOverflow | src/core-js/deepEquality.js:11-43 | comparing the function self-loops `f.self = f` and `g.self = g` overflows the stack even when the map already pairs `f` with `g`, because the guard skips functions |
| DeepEquality.FunctionSelfLoopsDiverge | src/core-js/deepEquality.js:11-43 | `deepEquality(f, g)` on those functions overflows the stack whatever its size |
| DeepClone.Clone | src/core-js/deepClone.js:1-20 | a clone never changes an existing object: it only appends new ones, and its result points into the heap |
| DeepClone.CloneElems | src/core-js/deepClone.js:8 | the element copies only append to the heap |
| DeepClone.CloneProps | src/core-js/deepClone.js:12-16 | the key loop only appends to the heap and builds an object of the kind `newObj` started as |
| DeepClone.DeepClone | src/core-js/deepClone.js:1-20 | the procedure, allocating in the heap object, returns what `Clone` returns and leaves the heap as `Clone` says |
| DeepClone.CloneArray | src/core-js/deepClone.js:7-9 | the `map` loop over the elements returns and allocates what `Clone` does for an array |
| DeepClone.CloneObject | src/core-js/deepClone.js:11-17 | the `for...of` loop over the entries returns and allocates what `Clone` does for a plain object |
| DeepClone.CloneIsCopy | src/core-js/deepClone.js:1-20 | the clone is a fresh structural copy, as `Copied` defines it. Primitives, functions and prototype-less objects come back as they are. A Date or RegExp becomes a new one with the same time, or the same source and flags. An array becomes a new array of the same length whose element i copies element i. A plain object becomes a new object with exactly the same keys in the same order, bar an own `"__proto__"` key, each value copied. Every new object lies in the part of the heap the clone added. |
| DeepClone.CloneElemsCopy | src/core-js/deepClone.js:8 | the mapped array has the original's length and its element i is a copy of element i |
| DeepClone.ClonePropsCopy | src/core-js/deepClone.js:12-16 | `newObj` ends with exactly the original's keys in the same order, bar `"__proto__"`, each holding a copy of the original's value |
| DeepClone.CloneWellFormed | src/core-js/deepClone.js:1-20 | cloning keeps the heap well formed |
| DeepClone.CopiedAcyclic | src/core-js/deepClone.js:1-20 | the copy of an acyclic value is acyclic and no higher than the original |
| DeepClone.CopiedTransitive | src/core-js/deepClone.js:1-20 | a copy of a copy is a copy of the original |
| DeepClone.CopyIsEqual | src/core-js/deepClone.js:1-20 | a copy compares deeply equal to its original when no invalid Date and no own `"__proto__"` key is reachable |
| DeepClone.RoundTrip | src/core-js/deepClone.js:1-20 | `deepEquality(v, deepClone(v))` is true for every acyclic `v` with no invalid Date and no own `"__proto__"` key, given stack enough for its height |
| DeepClone.DoubleRoundTrip | src/core-js/deepClone.js:1-20 | `deepEquality(v, deepClone(deepClone(v)))` is true on the same terms |
| DeepClone.SharingIsNotKept | src/core-js/deepClone.js:7-9 | an array holding one object twice is cloned into an array holding two distinct objects |
| DeepClone.InvalidDateBreaksRoundTrip | src/core-js/deepClone.js:4 | the clone of `new Date(NaN)` is not deeply equal to it |
| DeepClone.ProtoKeyBreaksRoundTrip | src/core-js/deepClone.js:12-16 | the clone of `JSON.parse('{"__proto__": 5}')` has no keys and is not deeply equal to it |
| Memoize.TableKeys | src/core-js/memoize.js:6-11 | the cache holds a key exactly when some earlier call had an argument list with that key |
| Memoize.TableFirst | src/core-js/memoize.js:5-11 | each entry holds what `func` returned for the first argument list with that key |
| Memoize.TableGrows | src/core-js/memoize.js:6-11 | later calls never remove or overwrite an entry: the cache only grows |
| Memoize.SameKeySameResult | src/core-js/memoize.js:5-11 | two calls whose argument lists serialise to the same key get the same result, which is what `func` returned for the first of them |
| Memoize.FirstsDistinct | src/core-js/memoize.js:10-11 | `func` runs at most once per key: the argument lists it runs on have pairwise distinct keys, and there are as many of them as cache entries |
| Memoize.Memoized.constructor | src/core-js/memoize.js:2 | each `memoize(func)` makes a new wrapper with its own empty cache and no calls yet |
| Memoize.Memoized.Call | src/core-js/memoize.js:4-14 | on a hit, the stored result is returned and neither `func` nor the cache is touched. On a miss, `func` runs exactly once and its result is stored under the key and returned. The cache stays the table of all calls so far. |

## Left out

- Numbers are integers plus NaN. Floating point, `-0`, the infinities,
  rounding and BigInt (`typeof` "bigint") are not modelled.
- The `WeakMap` of the equality is an ordinary map. Garbage collection plays
  no part in the answer.
- `JSON.stringify` of the argument list is an arbitrary function into
  strings, not necessarily injective. Its exceptions (a cyclic argument, a
  BigInt) are not modelled.
- Memoize.Memoized.Call: `func` is a pure, total function of the argument
  list. Its `this` binding (`func.apply(this, args)`), side effects and
  exceptions are not modelled.
- DeepEquality.Equal: each call consumes one unit of the `stack` budget. How
  deep the host's real call stack is, is not modelled.
- DeepEquality.EqualIsSame, DeepEquality.Arrays and DeepEquality.Objects:
  they assume an acyclic left-hand side with stack enough for its height. On
  cyclic graphs the code may not terminate (`LoopAndTwoCycleDiverge`,
  `FunctionSelfLoopsDiverge`). The cyclic cases the model states are those
  particular graphs and `SelfLoopsAreEqual`.
- DeepClone.Clone: defined on acyclic input only. On a cycle the code
  recurses forever (lines 8 and 14), which the model does not represent.
- DeepClone.Clone: a new array or object is allocated after its elements or
  properties are copied, not before. Nothing can reach it before it is
  returned, so only heap addresses differ.
- DeepClone.RoundTrip and DeepClone.DoubleRoundTrip: they require that no
  invalid Date and no own `"__proto__"` key is reachable. Without either the
  source's round trip can fail (`InvalidDateBreaksRoundTrip`,
  `ProtoKeyBreaksRoundTrip`). The conditions are sufficient, not necessary:
  they also exclude such a Date or key reachable only through an object the
  clone does not rebuild (a function, an object without a prototype, or the
  own keys of a Date or RegExp), where the round trip still holds.
- Objects carry only their own enumerable string keys, in `Object.keys`
  order. Not modelled:
  - symbol keys, non-enumerable properties, getters and setters;
  - array holes and extra properties on arrays.
- JsValues.SetProp appends a new key last. That is the `Object.keys` order
  here, because the clone inserts keys in the original's own order.
- JsValues.SetProp: `newObj["__proto__"] = value` with an object or `null`
  as `value` makes it the prototype of `newObj` (with `null`, the clone is
  then not `instanceof Object`). The model keeps only that no
  own key is created. The clone's changed prototype is not modelled.
- Prototypes are reduced to four classes:
  - an ordinary object (any object that is `instanceof Object` and not an
    array, Date, RegExp or function, including Maps, Sets and class
    instances);
  - a function;
  - Date and RegExp;
  - an object without a prototype, which `deepClone` returns as it is
    (line 19).
- `src/core-js/throttle.js`, the React hooks and components and the DOM
  helpers are not part of this model.
