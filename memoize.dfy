/**
  memoize(func) from src/core-js/memoize.js.

  `func` is a function of the argument list and `key` stands for
  `JSON.stringify` on it: any function into keys, not necessarily injective.
  A wrapper is a `Memoized` object whose `cache` the calls update; two ghost
  logs record every argument list the wrapper received (`history`) and every
  one `func` was applied to (`calls`).

  `Table` is the memo table a history describes, defined call by call;
  `Firsts` the argument lists a history makes `func` run on.
 */
module Memoize {

  /** The cache after the calls `hist`: a key maps to what `func` gave the first time it was seen. */
  ghost function Table<A, R>(func: A -> R, key: A -> string, hist: seq<A>): map<string, R>
    decreases |hist|
  {
    if hist == [] then map[]
    else
      var p, a := hist[..|hist| - 1], hist[|hist| - 1];
      var t := Table(func, key, p);
      if key(a) in t then t else t[key(a) := func(a)]
  }

  /** The cache holds a key exactly when some call had it. */
  lemma {:induction false} TableKeys<A, R>(func: A -> R, key: A -> string, hist: seq<A>, k: string)
    ensures k in Table(func, key, hist) <==> exists i :: 0 <= i < |hist| && key(hist[i]) == k
    decreases |hist|
  {
    if hist != [] {
      var p, a := hist[..|hist| - 1], hist[|hist| - 1];
      TableKeys(func, key, p, k);
      if k in Table(func, key, p) {
        var i :| 0 <= i < |p| && key(p[i]) == k;
        assert hist[i] == p[i];
      } else if exists i :: 0 <= i < |hist| && key(hist[i]) == k {
        var i :| 0 <= i < |hist| && key(hist[i]) == k;
        if i < |p| {
          assert hist[i] == p[i];
        }
      }
    }
  }

  /** The calls of `hist` that find nothing in the cache, in order: those `func` runs on. */
  ghost function Firsts<A, R>(func: A -> R, key: A -> string, hist: seq<A>): (fs: seq<A>)
    decreases |hist|
  {
    if hist == [] then []
    else
      var p, a := hist[..|hist| - 1], hist[|hist| - 1];
      if key(a) in Table(func, key, p) then Firsts(func, key, p) else Firsts(func, key, p) + [a]
  }

  /** The position of the first call in `hist` with key `k`. */
  ghost function First<A>(key: A -> string, hist: seq<A>, k: string): (i: nat)
    requires exists i :: 0 <= i < |hist| && key(hist[i]) == k
    ensures i < |hist| && key(hist[i]) == k
    ensures forall j :: 0 <= j < i ==> key(hist[j]) != k
  {
    if key(hist[0]) == k then 0
    else
      assert exists i :: 0 <= i < |hist[1..]| && key(hist[1..][i]) == k by {
        var i :| 0 <= i < |hist| && key(hist[i]) == k;
        assert hist[1..][i - 1] == hist[i];
      }
      1 + First(key, hist[1..], k)
  }

  /** Appending calls never drops or overwrites an entry: the cache only grows. */
  lemma {:induction false} TableGrows<A, R>(func: A -> R, key: A -> string, hist: seq<A>, more: seq<A>)
    ensures var t, t' := Table(func, key, hist), Table(func, key, hist + more);
      forall k :: k in t ==> k in t' && t'[k] == t[k]
    decreases |more|
  {
    if more != [] {
      var m := more[..|more| - 1];
      var h2 := hist + more;
      assert h2[..|h2| - 1] == hist + m;
      TableGrows(func, key, hist, m);
      var t1 := Table(func, key, hist + m);
      assert Table(func, key, h2) == if key(h2[|h2| - 1]) in t1 then t1 else t1[key(h2[|h2| - 1]) := func(h2[|h2| - 1])];
    } else {
      assert hist + more == hist;
    }
  }

  /** Every entry holds what `func` returned for the first argument list with that key. */
  lemma {:induction false} TableFirst<A, R>(func: A -> R, key: A -> string, hist: seq<A>, k: string)
    requires exists i :: 0 <= i < |hist| && key(hist[i]) == k
    ensures k in Table(func, key, hist) && Table(func, key, hist)[k] == func(hist[First(key, hist, k)])
    decreases |hist|
  {
    TableKeys(func, key, hist, k);
    var p, a := hist[..|hist| - 1], hist[|hist| - 1];
    assert hist == p + [a];
    TableKeys(func, key, p, k);
    if k in Table(func, key, p) {
      TableFirst(func, key, p, k);
      var i := First(key, p, k);
      assert p[i] == hist[i];
    } else {
      assert First(key, hist, k) == |p|;
    }
  }

  /**
    Two calls whose argument lists have the same key get the same result:
    what `func` returned for the first argument list with that key. The
    `i`-th call returns the entry for its key once it has been made.
   */
  lemma SameKeySameResult<A, R>(func: A -> R, key: A -> string, hist: seq<A>, i: nat, j: nat)
    requires i < j < |hist| && key(hist[i]) == key(hist[j])
    ensures var k := key(hist[i]);
      && k in Table(func, key, hist[..i + 1]) && k in Table(func, key, hist[..j + 1])
      && Table(func, key, hist[..i + 1])[k] == Table(func, key, hist[..j + 1])[k] == func(hist[First(key, hist, k)])
  {
    PrefixEntry(func, key, hist, i + 1, i);
    PrefixEntry(func, key, hist, j + 1, j);
  }

  /** After the first `n` calls, the entry for the key of call `i < n` is `func` of the first call with that key. */
  lemma PrefixEntry<A, R>(func: A -> R, key: A -> string, hist: seq<A>, n: nat, i: nat)
    requires i < n <= |hist|
    ensures var k := key(hist[i]);
      k in Table(func, key, hist[..n]) && Table(func, key, hist[..n])[k] == func(hist[First(key, hist, k)])
  {
    var k := key(hist[i]);
    var p := hist[..n];
    assert p[i] == hist[i];
    TableFirst(func, key, p, k);
    FirstOfPrefix(key, hist, n, i, k);
  }

  /** The first call with a key that occurs in the first `n` calls is the same in those `n` calls as in all of them. */
  lemma FirstOfPrefix<A>(key: A -> string, hist: seq<A>, n: nat, i: nat, k: string)
    requires i < n <= |hist| && key(hist[i]) == k
    ensures hist[..n][i] == hist[i] && First(key, hist[..n], k) == First(key, hist, k) < n
    ensures hist[..n][First(key, hist, k)] == hist[First(key, hist, k)]
  {
  }

  /**
    `func` runs once per key: the argument lists it is applied to have
    pairwise distinct keys, and there are as many as the cache has entries.
   */
  lemma {:induction false} FirstsDistinct<A, R>(func: A -> R, key: A -> string, hist: seq<A>)
    ensures var fs := Firsts(func, key, hist);
      && (forall i, j :: 0 <= i < j < |fs| ==> key(fs[i]) != key(fs[j]))
      && (forall i :: 0 <= i < |fs| ==> key(fs[i]) in Table(func, key, hist))
      && |fs| == |Table(func, key, hist).Keys|
    decreases |hist|
  {
    if hist != [] {
      var p, a := hist[..|hist| - 1], hist[|hist| - 1];
      FirstsDistinct(func, key, p);
      var t := Table(func, key, p);
      var fs := Firsts(func, key, p);
      if key(a) !in t {
        var t' := t[key(a) := func(a)];
        assert Firsts(func, key, hist) == fs + [a];
        assert t'.Keys == t.Keys + {key(a)};
        assert forall i :: 0 <= i < |fs| ==> key(fs[i]) in t';
      }
    }
  }

  /** The function `memoize(func)` returns, with its own cache. */
  class Memoized<A, R> {
    const func: A -> R
    const key: A -> string
    var cache: map<string, R>
    ghost var history: seq<A>
    ghost var calls: seq<A>

    /** The cache is the table of the calls so far, and `func` ran exactly on the ones that missed. */
    ghost predicate Valid()
      reads this
    {
      cache == Table(func, key, history) && calls == Firsts(func, key, history)
    }

    /** `memoize(func)`: a wrapper with a new, empty cache. */
    constructor (func: A -> R, key: A -> string)
      ensures Valid() && this.func == func && this.key == key
      ensures cache == map[] && history == [] && calls == []
    {
      this.func := func;
      this.key := key;
      cache := map[];
      history := [];
      calls := [];
    }

    /**
      A call of the wrapper. On a hit it returns the stored result and does
      not run `func`; on a miss it runs `func` once, stores its result under
      the key and returns it.
     */
    method Call(args: A) returns (r: R)
      requires Valid()
      modifies this
      ensures Valid() && history == old(history) + [args]
      ensures key(args) in cache && r == cache[key(args)]
      ensures old(key(args) in cache) ==> r == old(cache[key(args)]) && cache == old(cache) && calls == old(calls)
      ensures old(key(args) !in cache) ==>
        r == func(args) && cache == old(cache)[key(args) := r] && calls == old(calls) + [args]
    {
      var k := key(args);
      assert (history + [args])[..|history|] == history;
      history := history + [args];
      if k in cache {
        r := cache[k];
        return;
      }
      r := func(args);
      calls := calls + [args];
      cache := cache[k := r];
    }
  }
}
