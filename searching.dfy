/**
 * `ContainerUtil.find` (array, iterable and source overloads) and
 * `ContainerUtil.findAll`: the first element a condition accepts, and every
 * element it accepts, in order.
 */
module Searching {
  import opened Containers

  /**
   * The position of the first element of `s` that `condition` accepts, if
   * any: it is accepted, and nothing before it is; with no position, nothing
   * in `s` is accepted.
   */
  function FirstIndex<T>(s: seq<T>, condition: T -> bool): (r: Option<nat>)
    ensures r.Some? ==> r.value < |s| && condition(s[r.value])
    ensures r.Some? ==> forall j :: 0 <= j < r.value ==> !condition(s[j])
    ensures r.None? ==> forall j :: 0 <= j < |s| ==> !condition(s[j])
  {
    if s == [] then None
    else if condition(s[0]) then Some(0)
    else
      match FirstIndex(s[1..], condition)
      case None => None
      case Some(k) => Some(k + 1)
  }

  /** The element `find` returns: the one at `FirstIndex`, or `None` for Java's `null`. */
  function FirstMatch<T>(s: seq<T>, condition: T -> bool): Option<T>
  {
    match FirstIndex(s, condition)
    case None => None
    case Some(k) => Some(s[k])
  }

  /** `FirstIndex` is the only position that is accepted with nothing accepted before it. */
  lemma FirstIndexUnique<T>(s: seq<T>, condition: T -> bool, k: nat)
    requires k < |s| && condition(s[k])
    requires forall j :: 0 <= j < k ==> !condition(s[j])
    ensures FirstIndex(s, condition) == Some(k)
  {
  }

  /** Searching `a + b` finds the first match of `a` if there is one, and otherwise that of `b`. */
  lemma {:induction false} FirstMatchConcat<T>(a: seq<T>, b: seq<T>, condition: T -> bool)
    ensures FirstMatch(a + b, condition) == if FirstMatch(a, condition).Some? then FirstMatch(a, condition)
                                            else FirstMatch(b, condition)
  {
    var ra, rb := FirstIndex(a, condition), FirstIndex(b, condition);
    if ra.Some? {
      assert (a + b)[ra.value] == a[ra.value];
      FirstIndexUnique(a + b, condition, ra.value);
    } else if rb.Some? {
      assert (a + b)[|a| + rb.value] == b[rb.value];
      forall j | 0 <= j < |a| + rb.value ensures !condition((a + b)[j]) {
        if j >= |a| { assert (a + b)[j] == b[j - |a|]; }
      }
      FirstIndexUnique(a + b, condition, |a| + rb.value);
    } else {
      forall j | 0 <= j < |a + b| ensures !condition((a + b)[j]) {
        if j >= |a| { assert (a + b)[j] == b[j - |a|]; }
      }
      if FirstIndex(a + b, condition).Some? {
        assert false;
      }
    }
  }

  /** `find(Object[], Condition)`: a for-each loop over the array that returns on the first match. */
  method FindInArray<T>(elements: array<T>, condition: T -> bool) returns (found: Option<T>)
    ensures found == FirstMatch(elements[..], condition)
  {
    for i := 0 to elements.Length
      invariant forall j :: 0 <= j < i ==> !condition(elements[j])
    {
      var element := elements[i];
      if condition(element) {
        FirstIndexUnique(elements[..], condition, i);
        return Some(element);
      }
    }
    return None;
  }

  /**
   * `find(Iterator, Condition)`: pulls elements from the iterator `source`
   * until one is accepted. `rest` is what the iterator still holds afterwards:
   * everything after that element (the search stops there), or nothing when
   * no element matched.
   */
  method FindInIterator<T>(source: seq<T>, condition: T -> bool) returns (found: Option<T>, rest: seq<T>)
    ensures found == FirstMatch(source, condition)
    ensures rest == match FirstIndex(source, condition)
                    case None => []
                    case Some(k) => source[k + 1..]
  {
    var position := 0;
    while position < |source|
      invariant 0 <= position <= |source|
      invariant forall j :: 0 <= j < position ==> !condition(source[j])
    {
      var value := source[position];
      position := position + 1;
      if condition(value) {
        FirstIndexUnique(source, condition, position - 1);
        return Some(value), source[position..];
      }
    }
    return None, [];
  }

  /** `find(Iterable, Condition)`: the source overload on a fresh source. */
  method FindInIterable<T>(iterable: seq<T>, condition: T -> bool) returns (found: Option<T>)
    ensures found == FirstMatch(iterable, condition)
  {
    var unread;
    found, unread := FindInIterator(iterable, condition);
  }

  // ---------------------------------------------------------------------------
  // findAll

  /** The elements of `s` that `condition` accepts, in their original order. */
  function Filter<T>(s: seq<T>, condition: T -> bool): seq<T>
  {
    if s == [] then []
    else Filter(s[..|s| - 1], condition) + (if condition(s[|s| - 1]) then [s[|s| - 1]] else [])
  }

  /** `findAll`: one pass over the collection, appending every accepted element. */
  method FindAll<T>(collection: seq<T>, condition: T -> bool) returns (result: seq<T>)
    ensures result == Filter(collection, condition)
  {
    result := [];
    for i := 0 to |collection|
      invariant result == Filter(collection[..i], condition)
    {
      assert collection[..i + 1][..i] == collection[..i];
      if condition(collection[i]) {
        result := result + [collection[i]];
      }
    }
    assert collection[..|collection|] == collection;
  }

  /** Filtering a concatenation filters each part and keeps them in order. */
  lemma {:induction false} FilterConcat<T>(a: seq<T>, b: seq<T>, condition: T -> bool)
    ensures Filter(a + b, condition) == Filter(a, condition) + Filter(b, condition)
    decreases |b|
  {
    if b == [] {
      assert a + b == a;
    } else {
      var b' := b[..|b| - 1];
      assert (a + b)[..|a + b| - 1] == a + b';
      FilterConcat(a, b', condition);
    }
  }

  /**
   * Filtering keeps every accepted element with its multiplicity and drops
   * every rejected one.
   */
  lemma {:induction false} FilterCounts<T>(s: seq<T>, condition: T -> bool, x: T)
    ensures multiset(Filter(s, condition))[x] == if condition(x) then multiset(s)[x] else 0
  {
    if s != [] {
      var s' := s[..|s| - 1];
      FilterCounts(s', condition, x);
      assert s == s' + [s[|s| - 1]];
    }
  }

  /** Every element of the result is accepted and comes from the collection, and vice versa. */
  lemma FilterMembers<T>(s: seq<T>, condition: T -> bool, x: T)
    ensures x in Filter(s, condition) <==> x in s && condition(x)
  {
    FilterCounts(s, condition, x);
    assert x in Filter(s, condition) <==> x in multiset(Filter(s, condition));
    assert x in s <==> x in multiset(s);
  }

  /** Filtering an already filtered list changes nothing. */
  lemma {:induction false} FilterIdempotent<T>(s: seq<T>, condition: T -> bool)
    ensures Filter(Filter(s, condition), condition) == Filter(s, condition)
  {
    if s != [] {
      var s', last := s[..|s| - 1], s[|s| - 1];
      FilterIdempotent(s', condition);
      var tail := if condition(last) then [last] else [];
      FilterConcat(Filter(s', condition), tail, condition);
      if condition(last) {
        assert Filter(tail, condition) == Filter([], condition) + [last] by {
          assert tail[..|tail| - 1] == [];
        }
      }
    }
  }

  /** The first element `find` returns is the head of what `findAll` returns. */
  lemma {:induction false} FirstMatchIsHeadOfFilter<T>(s: seq<T>, condition: T -> bool)
    ensures FirstMatch(s, condition) == if Filter(s, condition) == [] then None else Some(Filter(s, condition)[0])
  {
    if s != [] {
      var s', last := s[..|s| - 1], s[|s| - 1];
      FirstMatchIsHeadOfFilter(s', condition);
      assert s == s' + [last];
      FirstMatchConcat(s', [last], condition);
      if condition(last) {
        FirstIndexUnique([last], condition, 0);
      } else if FirstIndex([last], condition).Some? {
        assert false;
      }
    }
  }
}
