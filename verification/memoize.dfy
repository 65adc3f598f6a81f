/** Utils.memoize (both copies): a function wrapped with a HashMap that
    remembers every result it has computed, via Map.computeIfAbsent. */
module Memoization {
  import opened Failures

  /** The wrapped function and the cache it has filled so far. */
  datatype Memo<!K(==), V> = Memo(f: K -> V, entries: map<K, V>)

  /** Every cached value is the wrapped function's value: the state every
      reachable cache is in. */
  ghost predicate Coherent<K, V>(m: Memo<K, V>) {
    forall x :: x in m.entries ==> m.entries[x] == m.f(x)
  }

  /** memoize(f, initSize, loadFactor): the HashMap constructor rejects a
      negative capacity or a non-positive load factor; otherwise the cache
      starts empty whatever the sizing hints are. */
  function NewMemo<K(==), V>(f: K -> V, initSize: int, loadFactor: real): (r: Result<Memo<K, V>>)
    ensures r.Ok? <==> initSize >= 0 && loadFactor > 0.0
    ensures r.Err? ==> r.error == IllegalArgument
    ensures r.Ok? ==> r.value.f == f && r.value.entries == map[] && Coherent(r.value)
  {
    if initSize < 0 || loadFactor <= 0.0 then Err(IllegalArgument)
    else Ok(Memo(f, map[]))
  }

  /** memoize(f): the default sizing (16, 0.75). */
  function Memoize<K(==), V>(f: K -> V): (m: Memo<K, V>)
    ensures m.f == f && m.entries == map[] && Coherent(m)
  {
    NewMemo(f, 16, 0.75).value
  }

  /** The sizing hints never change what the memoized function computes: any
      two accepted sizings give the same initial cache. */
  lemma SizingIsInvisible<K, V>(f: K -> V, size1: int, load1: real, size2: int, load2: real)
    requires NewMemo(f, size1, load1).Ok? && NewMemo(f, size2, load2).Ok?
    ensures NewMemo(f, size1, load1) == NewMemo(f, size2, load2)
    ensures NewMemo(f, size1, load1).value == Memoize(f)
  {
  }

  /** apply(x) = memoization.computeIfAbsent(x, f): answer from the cache if x
      is there, otherwise compute f(x) and cache it. Returns the answer and
      the new cache. */
  function Apply<K(==), V>(m: Memo<K, V>, x: K): (r: (V, Memo<K, V>))
    requires Coherent(m)
    ensures r.0 == m.f(x)
    ensures r.1.f == m.f && Coherent(r.1)
    ensures r.1.entries.Keys == m.entries.Keys + {x}
    ensures forall y :: y in m.entries ==> r.1.entries[y] == m.entries[y]
    ensures x in m.entries ==> r.1 == m
  {
    if x in m.entries then (m.entries[x], m)
    else (m.f(x), m.(entries := m.entries[x := m.f(x)]))
  }

  /** A run of calls, threading the cache from one to the next: one answer
      per argument, and the cache stays coherent. */
  function ApplyAll<K(==), V>(m: Memo<K, V>, xs: seq<K>): (r: (seq<V>, Memo<K, V>))
    requires Coherent(m)
    ensures |r.0| == |xs| && r.1.f == m.f && Coherent(r.1)
    decreases |xs|
  {
    if |xs| == 0 then ([], m)
    else
      var step := Apply(m, xs[0]);
      var rest := ApplyAll(step.1, xs[1..]);
      ([step.0] + rest.0, rest.1)
  }

  /** Each answer of a run is the wrapped function's value. */
  lemma {:induction false} ApplyAllAnswers<K, V>(m: Memo<K, V>, xs: seq<K>)
    requires Coherent(m)
    ensures forall i :: 0 <= i < |xs| ==> ApplyAll(m, xs).0[i] == m.f(xs[i])
    decreases |xs|
  {
    if |xs| > 0 {
      var step := Apply(m, xs[0]);
      ApplyAllAnswers(step.1, xs[1..]);
      var rest := ApplyAll(step.1, xs[1..]);
      assert ApplyAll(m, xs).0 == [step.0] + rest.0;
    }
  }

  /** After a run the cache holds exactly the old keys plus every argument,
      with the old entries unchanged. */
  lemma {:induction false} ApplyAllCache<K, V>(m: Memo<K, V>, xs: seq<K>)
    requires Coherent(m)
    ensures ApplyAll(m, xs).1.entries.Keys == m.entries.Keys + (set x | x in xs)
    ensures forall y :: y in m.entries ==> ApplyAll(m, xs).1.entries[y] == m.entries[y]
    decreases |xs|
  {
    if |xs| > 0 {
      var step := Apply(m, xs[0]);
      ApplyAllCache(step.1, xs[1..]);
      assert ApplyAll(m, xs).1 == ApplyAll(step.1, xs[1..]).1;
      assert (set x | x in xs) == {xs[0]} + (set x | x in xs[1..]) by {
        assert xs == [xs[0]] + xs[1..];
      }
    }
  }

  /** Repeating a run of calls answers the same and leaves the cache alone. */
  lemma {:induction false} ApplyAllRepeat<K, V>(m: Memo<K, V>, xs: seq<K>)
    requires Coherent(m)
    ensures ApplyAll(ApplyAll(m, xs).1, xs).0 == ApplyAll(m, xs).0
    ensures ApplyAll(ApplyAll(m, xs).1, xs).1 == ApplyAll(m, xs).1
  {
    ApplyAllCache(m, xs);
    var m' := ApplyAll(m, xs).1;
    CachedRunIsStable(m', xs);
    ApplyAllAnswers(m, xs);
    ApplyAllAnswers(m', xs);
  }

  /** Calls whose arguments are all cached change nothing. */
  lemma {:induction false} CachedRunIsStable<K, V>(m: Memo<K, V>, xs: seq<K>)
    requires Coherent(m)
    requires forall x :: x in xs ==> x in m.entries
    ensures ApplyAll(m, xs).1 == m
  {
    if |xs| > 0 {
      assert xs[0] in xs;
      forall x | x in xs[1..]
        ensures x in m.entries
      {
        assert x in xs;
      }
      CachedRunIsStable(m, xs[1..]);
    }
  }
}
