/**
 * `ContainerUtil.addAll` (iterator and enumeration overloads), `collect`,
 * `collectSet`, `assignKeys` and `assignValues`: draining a source into a
 * list, a set or a hash map.
 */
module Collecting {
  import opened Containers

  /** `addAll(Collection, Iterator)`: appends every element the iterator yields, in order. */
  method AddAll<T>(collection: MutableList<T>, source: seq<T>)
    modifies collection
    ensures collection.elements == old(collection.elements) + source
  {
    for i := 0 to |source|
      invariant collection.elements == old(collection.elements) + source[..i]
    {
      var o := source[i];
      collection.Add(o);
      assert source[..i + 1] == source[..i] + [o];
    }
    assert source[..|source|] == source;
  }

  /** `addAll(Collection, Enumeration)`: the same appending, driven by `hasMoreElements`. */
  method AddAllFromEnumeration<T>(collection: MutableList<T>, enumeration: seq<T>)
    modifies collection
    ensures collection.elements == old(collection.elements) + enumeration
  {
    var remaining := enumeration;
    while remaining != []
      invariant old(collection.elements) + enumeration == collection.elements + remaining
    {
      var element := remaining[0];
      remaining := remaining[1..];
      collection.Add(element);
    }
  }

  /** `collect(Iterator)`: a new list holding every element of the iterator, in order. */
  method Collect<T>(source: seq<T>) returns (list: seq<T>)
    ensures list == source
  {
    var arrayList := new MutableList<T>([]);
    AddAll(arrayList, source);
    list := arrayList.elements;
  }

  /** `collectSet(Iterator)`: a new set holding exactly the elements the iterator yields. */
  method CollectSet<T>(source: seq<T>) returns (hashSet: set<T>)
    ensures forall x :: x in hashSet <==> x in source
  {
    hashSet := {};
    for i := 0 to |source|
      invariant forall x :: x in hashSet <==> x in source[..i]
    {
      assert source[..i + 1] == source[..i] + [source[i]];
      hashSet := hashSet + {source[i]};
    }
    assert source[..|source|] == source;
  }

  /** A set collected from `n` elements has at most `n` members. */
  lemma {:induction false} CollectedSetSize<T>(source: seq<T>, hashSet: set<T>)
    requires forall x :: x in hashSet <==> x in source
    ensures |hashSet| <= |source|
  {
    if source != [] {
      var rest := source[1..];
      var restSet := hashSet - {source[0]};
      if source[0] in rest {
        forall x ensures x in hashSet <==> x in rest {
          if x in source { assert x == source[0] || x in rest; }
        }
        CollectedSetSize(rest, hashSet);
      } else {
        forall x ensures x in restSet <==> x in rest {
          if x in source { assert x == source[0] || x in rest; }
        }
        CollectedSetSize(rest, restSet);
      }
    } else {
      assert hashSet == {} by {
        forall x | x in hashSet ensures false { }
      }
    }
  }

  // ---------------------------------------------------------------------------
  // assignKeys / assignValues

  /**
   * The map `assignKeys` builds: each element is put under its key in order,
   * so a later element replaces an earlier one with the same key.
   */
  function KeyIndex<K, V>(s: seq<V>, keyConvertor: V -> K): map<K, V>
  {
    if s == [] then map[]
    else KeyIndex(s[..|s| - 1], keyConvertor)[keyConvertor(s[|s| - 1]) := s[|s| - 1]]
  }

  /** `assignKeys`: one pass, putting each element under the key the convertor gives it. */
  method AssignKeys<K, V>(source: seq<V>, keyConvertor: V -> K) returns (hashMap: map<K, V>)
    ensures hashMap == KeyIndex(source, keyConvertor)
  {
    hashMap := map[];
    for i := 0 to |source|
      invariant hashMap == KeyIndex(source[..i], keyConvertor)
    {
      assert source[..i + 1][..i] == source[..i];
      var value := source[i];
      hashMap := hashMap[keyConvertor(value) := value];
    }
    assert source[..|source|] == source;
  }

  /**
   * The keys of `assignKeys`'s map are exactly the keys of the elements, and
   * each key maps to the LAST element that has it: an element no later
   * element shares a key with is the one stored under its key.
   */
  lemma {:induction false} KeyIndexLastWins<K, V>(s: seq<V>, keyConvertor: V -> K)
    ensures forall k :: k in KeyIndex(s, keyConvertor) <==> exists i :: 0 <= i < |s| && keyConvertor(s[i]) == k
    ensures forall i :: 0 <= i < |s| && (forall j :: i < j < |s| ==> keyConvertor(s[j]) != keyConvertor(s[i]))
                     ==> keyConvertor(s[i]) in KeyIndex(s, keyConvertor) && KeyIndex(s, keyConvertor)[keyConvertor(s[i])] == s[i]
  {
    if s != [] {
      var s', last := s[..|s| - 1], s[|s| - 1];
      KeyIndexLastWins(s', keyConvertor);
      var m := KeyIndex(s, keyConvertor);
      forall k ensures k in m <==> exists i :: 0 <= i < |s| && keyConvertor(s[i]) == k {
        if k in m && k != keyConvertor(last) {
          assert k in KeyIndex(s', keyConvertor);
          var i :| 0 <= i < |s'| && keyConvertor(s'[i]) == k;
          assert s[i] == s'[i];
        }
        if i :| 0 <= i < |s| && keyConvertor(s[i]) == k {
          if i < |s| - 1 {
            assert s'[i] == s[i];
          }
        }
      }
      forall i | 0 <= i < |s| && (forall j :: i < j < |s| ==> keyConvertor(s[j]) != keyConvertor(s[i]))
        ensures keyConvertor(s[i]) in m && m[keyConvertor(s[i])] == s[i]
      {
        if i < |s| - 1 {
          assert s'[i] == s[i];
          forall j | i < j < |s'| ensures keyConvertor(s'[j]) != keyConvertor(s'[i]) {
            assert s'[j] == s[j];
          }
        }
      }
    }
  }

  /**
   * `assignValues`: one pass, putting each element as a key with the value the
   * convertor computes from it. The keys are exactly the elements, and each
   * holds its converted value.
   */
  method AssignValues<K, V>(source: seq<K>, valueConvertor: K -> V) returns (hashMap: map<K, V>)
    ensures forall k :: k in hashMap <==> k in source
    ensures forall k :: k in hashMap ==> hashMap[k] == valueConvertor(k)
  {
    hashMap := map[];
    for i := 0 to |source|
      invariant forall k :: k in hashMap <==> k in source[..i]
      invariant forall k :: k in hashMap ==> hashMap[k] == valueConvertor(k)
    {
      assert source[..i + 1] == source[..i] + [source[i]];
      var key := source[i];
      hashMap := hashMap[key := valueConvertor(key)];
    }
    assert source[..|source|] == source;
  }
}
