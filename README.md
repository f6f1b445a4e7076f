# ContainerUtil, modelled in Dafny

A model of IntelliJ's generic collection utility `ContainerUtil`. It covers:

- the two-cursor merge of sorted lists;
- draining an iterator or enumeration into a list, a set or a hash map;
- `find` and `findAll`;
- `map2List` and `concat`;
- removing duplicates from a list in place;
- swapping two list elements.

Each utility becomes a Dafny `method` with the same loop as the Java code. The method is proved against a specification function or stated property. Lemmas then prove what the specification promises.

Java types map to Dafny as follows:

- Iterators, enumerations, iterables and collections the utility only reads are finite sequences.
- Lists the utility creates are returned as sequence values.
- A list the caller owns that the utility changes in place is a `Containers.MutableList`. Its `elements` field is reassigned by `Add`, `Set` and `RemoveAt`.
- `HashSet` is `set` and `HashMap` is `map`.
- A `Comparator` is a function to `int`.
- `Condition`, `Convertor` and `Function` are total functions.
- Java's `null` result of `find` is `Option.None`.
- The exception `List.get` throws for a bad index is `Outcome.Fail(IndexOutOfBounds(i))`.

Modules, one file each:

- `Containers` (`containers.dfy`): the shared `Option`/`Outcome` values and the `MutableList` class.
- `Merging` (`merging.dfy`): `mergeSortedLists`. The loop's schedule of turns is `MergeSteps`, and what each turn appends is `Emit`.
- `Collecting` (`collecting.dfy`): `addAll`, `collect`, `collectSet`, `assignKeys` and `assignValues`.
- `Searching` (`searching.dfy`): `find` and `findAll`.
- `Transforming` (`transforming.dfy`): `map2List` and `concat`.
- `InPlace` (`in_place.dfy`): `removeDuplicates` and `swapElements`.

### How the merge treats equal elements

- **Only cursor-aligned equal pairs collapse.** On each turn the loop compares just the two elements under the cursors. With the flag set, an equal pair drops its list2 element. A list1 element that meets a greater list2 element stays, even if it equals an element already emitted. Merging `[1,3,3,5]` with `[2,3,4]` gives `[1,2,3,3,4,5]` with the flag and `[1,2,3,3,3,4,5]` without it (`Merging.MergeExample`).
- **The merge is not stable in the all-list1-equals-first sense.** Equal runs are resolved pair by pair, so a list2 element can fall between two equal list1 elements (`Merging.MergeEqualRunsInterleave`). What does hold is that each input's elements keep their relative order (`Merging.MergeKeepsInputOrder`).

## Model

All source paths are `util/src/com/intellij/util/containers/ContainerUtil.java`.

| member | source | states |
|---|---|---|
| Merging.MergeSortedLists | util/src/com/intellij/util/containers/ContainerUtil.java:25-61 | The loop returns the merge of the two lists. Its length is the sum of the input lengths, minus one per equal pair when the flag is set. With one input empty, the result is the other input. |
| Merging.MergeSteps | util/src/com/intellij/util/containers/ContainerUtil.java:30-58 | The loop takes at most one turn per input element. Every turn that advances both cursors is over a pair the comparator calls equal. |
| Merging.MergeLength | util/src/com/intellij/util/containers/ContainerUtil.java:49-56 | The result length is the sum of the input lengths, minus the equal pairs when the flag is set. There are never more equal pairs than list2 elements. |
| Merging.MergeIsPermutation | util/src/com/intellij/util/containers/ContainerUtil.java:25-61 | Without the flag, the result is a permutation of list1 and list2 together. |
| Merging.MergeEqualDropsRight | util/src/com/intellij/util/containers/ContainerUtil.java:49-56 | With the flag, the result plus the dropped elements is exactly the two inputs. Every list1 element survives. Only list2 elements are dropped, one per equal pair. |
| Merging.MergeKeepsInputOrder | util/src/com/intellij/util/containers/ContainerUtil.java:30-58 | The list1 elements appear in the result in their original order. So do the kept list2 elements, which are all of list2 without the flag. |
| Merging.MergeWithEmpty | util/src/com/intellij/util/containers/ContainerUtil.java:31-36 | When one input is empty, the result equals the other input. |
| Merging.MergeMembers | util/src/com/intellij/util/containers/ContainerUtil.java:30-58 | Every element of the result comes from one of the inputs. |
| Merging.MergeSorted | util/src/com/intellij/util/containers/ContainerUtil.java:37-57 | If both inputs are sorted and the comparator keeps the sign-symmetry and transitivity of its contract, the result is sorted, with or without the flag. |
| Merging.MergeExample | util/src/com/intellij/util/containers/ContainerUtil.java:49-56 | `[1,3,3,5]` merged with `[2,3,4]` gives `[1,2,3,3,4,5]` with the flag and `[1,2,3,3,3,4,5]` without it. |
| Merging.MergeEqualRunsInterleave | util/src/com/intellij/util/containers/ContainerUtil.java:49-56 | Merging `[(3,a),(3,b)]` with `[(3,c)]` by key gives `[(3,a),(3,c),(3,b)]`: a list2 element can land between equal list1 elements. |
| Collecting.AddAll | util/src/com/intellij/util/containers/ContainerUtil.java:63-68 | The collection's new contents are its old contents followed by every element of the iterator, in order. |
| Collecting.AddAllFromEnumeration | util/src/com/intellij/util/containers/ContainerUtil.java:198-203 | The collection's new contents are its old contents followed by every element of the enumeration, in order. |
| Collecting.Collect | util/src/com/intellij/util/containers/ContainerUtil.java:70-74 | The new list holds exactly the iterator's elements, in order. |
| Collecting.CollectSet | util/src/com/intellij/util/containers/ContainerUtil.java:76-80 | The set contains exactly the elements the iterator yields. |
| Collecting.CollectedSetSize | util/src/com/intellij/util/containers/ContainerUtil.java:76-80 | The set collected from n elements has at most n members. |
| Collecting.AssignKeys | util/src/com/intellij/util/containers/ContainerUtil.java:82-89 | The loop builds `KeyIndex`: each element is put under its key in order. |
| Collecting.KeyIndexLastWins | util/src/com/intellij/util/containers/ContainerUtil.java:82-89 | The map's keys are exactly the keys of the elements. An element that no later element shares a key with is the one stored under its key. |
| Collecting.AssignValues | util/src/com/intellij/util/containers/ContainerUtil.java:91-98 | The map's keys are exactly the iterator's elements, and each key maps to its converted value. |
| Searching.FirstIndex | util/src/com/intellij/util/containers/ContainerUtil.java:120-126 | A found position holds an accepted element, and no earlier element is accepted. With no position, no element is accepted. |
| Searching.FirstIndexUnique | util/src/com/intellij/util/containers/ContainerUtil.java:120-126 | An accepted position with nothing accepted before it is the one the search finds. |
| Searching.FindInArray | util/src/com/intellij/util/containers/ContainerUtil.java:108-114 | The array loop returns the first accepted element, or None (Java `null`) if there is none. |
| Searching.FindInIterator | util/src/com/intellij/util/containers/ContainerUtil.java:120-126 | The iterator loop returns the first accepted element, or None. It leaves the iterator just past that element, or exhausted. |
| Searching.FindInIterable | util/src/com/intellij/util/containers/ContainerUtil.java:116-118 | The iterable overload returns what the iterator overload returns on a fresh iterator. |
| Searching.FirstMatchConcat | util/src/com/intellij/util/containers/ContainerUtil.java:120-126 | Searching `a + b` finds the first match of `a` if there is one, and otherwise that of `b`. |
| Searching.FindAll | util/src/com/intellij/util/containers/ContainerUtil.java:145-153 | The loop returns `Filter`, the accepted elements in their original order. |
| Searching.FilterConcat | util/src/com/intellij/util/containers/ContainerUtil.java:145-153 | Filtering a concatenation gives the concatenation of the filtered parts. |
| Searching.FilterCounts | util/src/com/intellij/util/containers/ContainerUtil.java:145-153 | An accepted value appears in the result as often as in the collection. A rejected value does not appear at all. |
| Searching.FilterMembers | util/src/com/intellij/util/containers/ContainerUtil.java:145-153 | A value is in the result exactly when it is in the collection and accepted. |
| Searching.FilterIdempotent | util/src/com/intellij/util/containers/ContainerUtil.java:145-153 | Filtering a filtered list with the same condition changes nothing. |
| Searching.FirstMatchIsHeadOfFilter | util/src/com/intellij/util/containers/ContainerUtil.java:145-153 | `find` returns the first element of what `findAll` returns, and `null` when that is empty. |
| Transforming.Map2List | util/src/com/intellij/util/containers/ContainerUtil.java:128-134 | The new list is as long as the collection. Each position holds the mapper applied to the element at the same position. |
| Transforming.Concat | util/src/com/intellij/util/containers/ContainerUtil.java:211-217 | The loop returns `FlatMap`, the lists the function gives for each element, joined in order. |
| Transforming.FlatMapConcat | util/src/com/intellij/util/containers/ContainerUtil.java:211-217 | Concat over a concatenation is the concatenation of the parts' results. |
| Transforming.FlatMapMembers | util/src/com/intellij/util/containers/ContainerUtil.java:211-217 | A value is in the result exactly when it is in the function's list for some element. |
| Transforming.FlatMapUniformLength | util/src/com/intellij/util/containers/ContainerUtil.java:211-217 | When every list the function gives has length k, the result has length k times the number of elements. |
| Transforming.FlatMapOfSingletons | util/src/com/intellij/util/containers/ContainerUtil.java:211-217 | With one-element lists `[mapper(v)]`, concat returns what map2List returns with that mapper. |
| InPlace.RemoveDuplicates | util/src/com/intellij/util/containers/ContainerUtil.java:155-165 | After the iterator walk, the list holds `FirstOccurrences` of its old contents. |
| InPlace.KeepFirstMembers | util/src/com/intellij/util/containers/ContainerUtil.java:155-165 | An element survives exactly when it occurs and is not already in the seen set. |
| InPlace.KeepFirstDistinct | util/src/com/intellij/util/containers/ContainerUtil.java:155-165 | No survivor was already seen, and no two survivors are equal. |
| InPlace.KeepFirstSnoc | util/src/com/intellij/util/containers/ContainerUtil.java:155-165 | A trailing element survives exactly when it has not occurred before and was not already seen. |
| InPlace.FirstOccurrencesProperties | util/src/com/intellij/util/containers/ContainerUtil.java:155-165 | The result has the same members as the list and no duplicates. Appending an element adds it to the result exactly when it is new. |
| InPlace.KeepFirstOfDistinct | util/src/com/intellij/util/containers/ContainerUtil.java:155-165 | A duplicate-free list whose elements were not already seen is left unchanged. |
| InPlace.RemoveDuplicatesIdempotent | util/src/com/intellij/util/containers/ContainerUtil.java:155-165 | Removing duplicates a second time changes nothing. |
| InPlace.RemoveDuplicatesExample | util/src/com/intellij/util/containers/ContainerUtil.java:155-165 | `[3,1,3,2,1]` becomes `[3,1,2]`. |
| InPlace.Swapped | util/src/com/intellij/util/containers/ContainerUtil.java:187-192 | The two positions exchange their elements. The length and every other position are unchanged. |
| InPlace.SwapElements | util/src/com/intellij/util/containers/ContainerUtil.java:187-192 | An index outside the list fails with IndexOutOfBounds, index1 checked first, and leaves the list unchanged. Otherwise the list becomes `Swapped`. |
| InPlace.SwappedTwiceRestores | util/src/com/intellij/util/containers/ContainerUtil.java:187-192 | Swapping the same positions twice restores the list. |
| InPlace.SwappedIsPermutation | util/src/com/intellij/util/containers/ContainerUtil.java:187-192 | A swap keeps every element with its multiplicity. |
| InPlace.SwappedSymmetric | util/src/com/intellij/util/containers/ContainerUtil.java:187-192 | The order of the two indexes does not matter. |

## Left out

- `emptyIterator` (lines 100-106) is an iterator that has no elements. Here it is the empty sequence, so there is no operation to model.
- `iterate` over an array or an `Enumeration` (lines 167-185) is an adapter from one element source to another. Both are sequences here. Its `remove` throwing `UnsupportedOperationException` is not modelled.
- `map2Array` (lines 136-143) is `map2List` followed by `List.toArray`. Java array reflection and the caller-supplied target array are not modelled.
- `collect` with an `InstanceOf` filter (lines 194-196) and `findInstance` (lines 205-209) depend on runtime class tests, which have no counterpart here. `FilteringIterator` is not part of this model.
- `find(Object[])` casts each element unchecked. A `ClassCastException` from a condition that sees a wrong type is not modelled.
- Java `null` as an element is not distinguished from "not found": an element that is `null` and accepted is modelled as found.
- `Collecting.CollectSet` writes the `addAll`-into-`HashSet` loop out on a set value. A `HashSet` is not a `MutableList`, so it does not call `Collecting.AddAll`.
- Hash iteration order, hashing and `equals` contracts are not modelled. `set` and `map` use Dafny's own equality, and element order in a `HashSet` or `HashMap` is not observable here.
- `Collecting.AddAll` covers only a list target. Adding into an arbitrary `Collection`, such as a set that ignores duplicates, is not modelled.
- InPlace.SwapElements: unmodifiable lists are not modelled. On such a list `List.set` throws `UnsupportedOperationException` after both reads succeed, and that outcome is not among the modelled ones, because a `MutableList` always accepts `Set`.
- Collecting.AddAll: unmodifiable target collections are not modelled. On such a collection `Collection.add` throws `UnsupportedOperationException` on the first element, because a `MutableList` always accepts `Add`. The same holds for `Collecting.AddAllFromEnumeration`.
- `InPlace.RemoveDuplicates` covers a list whose iterator supports `remove`. Other collections, and the `UnsupportedOperationException` of unmodifiable ones, are not modelled.
- `ConcurrentModificationException`, and any mutation of the inputs by the callbacks, are not modelled. The comparator, conditions and convertors are pure functions here.
- `Merging.MergeSorted`: sortedness is proved only for comparators with sign symmetry and transitivity. On unsorted input or a comparator that breaks its contract, the result is still given exactly by `Merging.Merge`, but nothing is proved about its order.
- The other files of the repository are unrelated to `ContainerUtil` and are not modelled. They are IDE completion glue (`ClassLookupElementFactory.kt`), UI designer dispatch (`RadViewAnimatorLayout.java`) and a file-logger test (`FileLoggerTest.kt`).
