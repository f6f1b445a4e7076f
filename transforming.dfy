/**
 * `ContainerUtil.map2List` and `ContainerUtil.concat`: element-wise map, and
 * map-then-flatten.
 */
module Transforming {

  /** `map2List`: one pass over the collection, appending `mapper` of each element. */
  method Map2List<T, V>(collection: seq<T>, mapper: T -> V) returns (list: seq<V>)
    ensures |list| == |collection|
    ensures forall i :: 0 <= i < |collection| ==> list[i] == mapper(collection[i])
  {
    list := [];
    for i := 0 to |collection|
      invariant |list| == i
      invariant forall j :: 0 <= j < i ==> list[j] == mapper(collection[j])
    {
      list := list + [mapper(collection[i])];
    }
  }

  /** The lists `fun` gives for the elements of `s`, joined in the order of `s`. */
  function FlatMap<V, T>(s: seq<V>, fun: V -> seq<T>): seq<T>
  {
    if s == [] then [] else FlatMap(s[..|s| - 1], fun) + fun(s[|s| - 1])
  }

  /** `concat`: one pass over the list, appending all of `fun(v)` for each `v`. */
  method Concat<V, T>(list: seq<V>, fun: V -> seq<T>) returns (result: seq<T>)
    ensures result == FlatMap(list, fun)
  {
    result := [];
    for i := 0 to |list|
      invariant result == FlatMap(list[..i], fun)
    {
      assert list[..i + 1][..i] == list[..i];
      result := result + fun(list[i]);
    }
    assert list[..|list|] == list;
  }

  /** Flat-mapping a concatenation flat-maps each part and keeps them in order. */
  lemma {:induction false} FlatMapConcat<V, T>(a: seq<V>, b: seq<V>, fun: V -> seq<T>)
    ensures FlatMap(a + b, fun) == FlatMap(a, fun) + FlatMap(b, fun)
    decreases |b|
  {
    if b == [] {
      assert a + b == a;
    } else {
      var b' := b[..|b| - 1];
      assert (a + b)[..|a + b| - 1] == a + b';
      FlatMapConcat(a, b', fun);
    }
  }

  /** An element is in the result exactly when it is in `fun(v)` for some `v` of the list. */
  lemma {:induction false} FlatMapMembers<V, T>(s: seq<V>, fun: V -> seq<T>, x: T)
    ensures x in FlatMap(s, fun) <==> exists i :: 0 <= i < |s| && x in fun(s[i])
  {
    if s != [] {
      var s' := s[..|s| - 1];
      FlatMapMembers(s', fun, x);
      if x in fun(s[|s| - 1]) {
        assert x in FlatMap(s, fun);
      }
      if x in FlatMap(s', fun) {
        var i :| 0 <= i < |s'| && x in fun(s'[i]);
        assert s[i] == s'[i];
      }
      if i :| 0 <= i < |s| && x in fun(s[i]) {
        if i < |s| - 1 {
          assert s'[i] == s[i];
        }
      }
    }
  }

  /**
   * When every list `fun` gives has the same length `k`, the result has `k`
   * elements per element of the input.
   */
  lemma {:induction false} FlatMapUniformLength<V, T>(s: seq<V>, fun: V -> seq<T>, k: nat)
    requires forall v :: |fun(v)| == k
    ensures |FlatMap(s, fun)| == k * |s|
  {
    if s != [] {
      var s' := s[..|s| - 1];
      FlatMapUniformLength(s', fun, k);
      assert |fun(s[|s| - 1])| == k;
      assert k * |s| == k * |s'| + k;
    }
  }

  /**
   * When every `fun(v)` is the one-element list `[mapper(v)]`, `concat`
   * returns what `map2List(list, mapper)` returns.
   */
  lemma {:induction false} FlatMapOfSingletons<V, T>(s: seq<V>, fun: V -> seq<T>, mapper: V -> T)
    requires forall v :: fun(v) == [mapper(v)]
    ensures |FlatMap(s, fun)| == |s|
    ensures forall i :: 0 <= i < |s| ==> FlatMap(s, fun)[i] == mapper(s[i])
  {
    if s != [] {
      var s' := s[..|s| - 1];
      FlatMapOfSingletons(s', fun, mapper);
      assert fun(s[|s| - 1]) == [mapper(s[|s| - 1])];
      forall i | 0 <= i < |s| ensures FlatMap(s, fun)[i] == mapper(s[i]) {
        if i < |s| - 1 {
          assert s'[i] == s[i];
        }
      }
    }
  }
}
