/**
 * `ContainerUtil.removeDuplicates` and `ContainerUtil.swapElements`: the two
 * operations that change a caller's list in place.
 */
module InPlace {
  import opened Containers

  // ---------------------------------------------------------------------------
  // removeDuplicates

  /**
   * The elements of `s` that are neither in `seen` nor equal to an earlier
   * element of `s`, in their order in `s`.
   */
  function KeepFirst<T>(s: seq<T>, seen: set<T>): seq<T>
  {
    if s == [] then []
    else if s[0] in seen then KeepFirst(s[1..], seen)
    else [s[0]] + KeepFirst(s[1..], seen + {s[0]})
  }

  /** The first occurrence of each element of `s`, in the order of `s`. */
  function FirstOccurrences<T(==)>(s: seq<T>): seq<T>
  {
    KeepFirst(s, {})
  }

  /**
   * `removeDuplicates` on a list: walks the list with an iterator, remembers
   * each element it has seen, and removes through the iterator every element
   * seen before. Index `i` is the iterator's cursor.
   */
  method RemoveDuplicates<T(==)>(collection: MutableList<T>)
    modifies collection
    ensures collection.elements == FirstOccurrences(old(collection.elements))
  {
    var collected: set<T> := {};
    var i := 0;
    while i < |collection.elements|
      invariant 0 <= i <= |collection.elements|
      invariant collection.elements[..i] + KeepFirst(collection.elements[i..], collected)
                == FirstOccurrences(old(collection.elements))
      decreases |collection.elements| - i
    {
      ghost var before := collection.elements;
      var t := collection.elements[i];
      assert before[i..][1..] == before[i + 1..];
      if t !in collected {
        collected := collected + {t};
        i := i + 1;
        assert before[..i] == before[..i - 1] + [t];
      } else {
        collection.RemoveAt(i);
        assert collection.elements[..i] == before[..i];
        assert collection.elements[i..] == before[i + 1..];
      }
    }
    assert collection.elements[..i] == collection.elements;
  }

  /** An element survives exactly when it occurs in `s` and is not in `seen`. */
  lemma {:induction false} KeepFirstMembers<T>(s: seq<T>, seen: set<T>, x: T)
    ensures x in KeepFirst(s, seen) <==> x in s && x !in seen
  {
    if s != [] {
      KeepFirstMembers(s[1..], seen, x);
      KeepFirstMembers(s[1..], seen + {s[0]}, x);
      assert x in s <==> x == s[0] || x in s[1..];
    }
  }

  /** No survivor is in `seen`, and no two survivors are equal. */
  lemma {:induction false} KeepFirstDistinct<T>(s: seq<T>, seen: set<T>)
    ensures forall i :: 0 <= i < |KeepFirst(s, seen)| ==> KeepFirst(s, seen)[i] !in seen
    ensures forall i, j :: 0 <= i < j < |KeepFirst(s, seen)| ==> KeepFirst(s, seen)[i] != KeepFirst(s, seen)[j]
  {
    if s != [] {
      KeepFirstDistinct(s[1..], seen);
      KeepFirstDistinct(s[1..], seen + {s[0]});
    }
  }

  /** Appending one element keeps it when it is new, and drops it when it is not. */
  lemma {:induction false} KeepFirstSnoc<T>(s: seq<T>, seen: set<T>, x: T)
    ensures KeepFirst(s + [x], seen) == KeepFirst(s, seen) + (if x in s || x in seen then [] else [x])
  {
    if s == [] {
      assert [x][1..] == [];
    } else {
      assert (s + [x])[1..] == s[1..] + [x];
      KeepFirstSnoc(s[1..], seen, x);
      KeepFirstSnoc(s[1..], seen + {s[0]}, x);
      assert x in s <==> x == s[0] || x in s[1..];
    }
  }

  /**
   * What `removeDuplicates` leaves: exactly the distinct elements of the
   * original list, each at its first position, in the original order.
   */
  lemma FirstOccurrencesProperties<T>(s: seq<T>)
    ensures forall x :: x in FirstOccurrences(s) <==> x in s
    ensures forall i, j :: 0 <= i < j < |FirstOccurrences(s)| ==> FirstOccurrences(s)[i] != FirstOccurrences(s)[j]
    ensures forall x :: FirstOccurrences(s + [x]) == FirstOccurrences(s) + (if x in s then [] else [x])
  {
    forall x ensures x in FirstOccurrences(s) <==> x in s {
      KeepFirstMembers(s, {}, x);
    }
    KeepFirstDistinct(s, {});
    forall x ensures FirstOccurrences(s + [x]) == FirstOccurrences(s) + (if x in s then [] else [x]) {
      KeepFirstSnoc(s, {}, x);
    }
  }

  /** A list without duplicates is left as it is, so removing duplicates twice changes nothing more. */
  lemma {:induction false} KeepFirstOfDistinct<T>(s: seq<T>, seen: set<T>)
    requires forall i, j :: 0 <= i < j < |s| ==> s[i] != s[j]
    requires forall i :: 0 <= i < |s| ==> s[i] !in seen
    ensures KeepFirst(s, seen) == s
  {
    if s != [] {
      assert s == [s[0]] + s[1..];
      KeepFirstOfDistinct(s[1..], seen + {s[0]});
    }
  }

  lemma RemoveDuplicatesIdempotent<T>(s: seq<T>)
    ensures FirstOccurrences(FirstOccurrences(s)) == FirstOccurrences(s)
  {
    KeepFirstDistinct(s, {});
    KeepFirstOfDistinct(FirstOccurrences(s), {});
  }

  /** On `[3, 1, 3, 2, 1]` the second `3` and the second `1` go: `[3, 1, 2]` remains. */
  lemma RemoveDuplicatesExample()
    ensures FirstOccurrences([3, 1, 3, 2, 1]) == [3, 1, 2]
  {
    var s := [3, 1, 3, 2, 1];
    assert s[1..] == [1, 3, 2, 1];
    assert [1, 3, 2, 1][1..] == [3, 2, 1];
    assert [3, 2, 1][1..] == [2, 1];
    assert [2, 1][1..] == [1];
    assert [1][1..] == [];
    assert {} + {3} == {3} && {3} + {1} == {3, 1} && {3, 1} + {2} == {3, 1, 2};
    assert KeepFirst([1], {3, 1, 2}) == [];
    assert KeepFirst([2, 1], {3, 1}) == [2];
    assert KeepFirst([3, 2, 1], {3, 1}) == [2];
    assert KeepFirst([1, 3, 2, 1], {3}) == [1, 2];
    assert KeepFirst(s, {}) == [3, 1, 2];
  }

  // ---------------------------------------------------------------------------
  // swapElements

  /** `s` with the elements at `i` and `j` exchanged; nothing else moves. */
  function Swapped<T>(s: seq<T>, i: nat, j: nat): (r: seq<T>)
    requires i < |s| && j < |s|
    ensures |r| == |s|
    ensures r[i] == s[j] && r[j] == s[i]
    ensures forall k :: 0 <= k < |s| && k != i && k != j ==> r[k] == s[k]
  {
    s[i := s[j]][j := s[i]]
  }

  /**
   * `swapElements`: reads the element at `index1`, then the one at `index2`,
   * then writes each into the other's place. `List.get` throws on an index
   * outside the list before anything is written, so a failed call leaves the
   * list as it was.
   */
  method SwapElements<E>(list: MutableList<E>, index1: int, index2: int) returns (outcome: Outcome<ListError>)
    modifies list
    ensures outcome == if !(0 <= index1 < |old(list.elements)|) then Fail(IndexOutOfBounds(index1))
                       else if !(0 <= index2 < |old(list.elements)|) then Fail(IndexOutOfBounds(index2))
                       else Pass
    ensures outcome.Pass? ==> list.elements == Swapped(old(list.elements), index1, index2)
    ensures outcome.Fail? ==> list.elements == old(list.elements)
  {
    if !(0 <= index1 < |list.elements|) {
      return Fail(IndexOutOfBounds(index1));
    }
    var e1 := list.elements[index1];
    if !(0 <= index2 < |list.elements|) {
      return Fail(IndexOutOfBounds(index2));
    }
    var e2 := list.elements[index2];
    list.Set(index1, e2);
    list.Set(index2, e1);
    return Pass;
  }

  /** Swapping the same two positions again restores the list. */
  lemma SwappedTwiceRestores<T>(s: seq<T>, i: nat, j: nat)
    requires i < |s| && j < |s|
    ensures Swapped(Swapped(s, i, j), i, j) == s
  {
    var r := Swapped(Swapped(s, i, j), i, j);
    forall k | 0 <= k < |s| ensures r[k] == s[k] {
    }
  }

  /** A swap only reorders: the list keeps every element with its multiplicity. */
  lemma SwappedIsPermutation<T>(s: seq<T>, i: nat, j: nat)
    requires i < |s| && j < |s|
    ensures multiset(Swapped(s, i, j)) == multiset(s)
  {
    var t := s[i := s[j]];
    assert multiset(t) == multiset(s) - multiset{s[i]} + multiset{s[j]};
    assert multiset(t[j := s[i]]) == multiset(t) - multiset{t[j]} + multiset{s[i]};
  }

  /** The order of the two indexes does not matter. */
  lemma SwappedSymmetric<T>(s: seq<T>, i: nat, j: nat)
    requires i < |s| && j < |s|
    ensures Swapped(s, i, j) == Swapped(s, j, i)
  {
  }
}
