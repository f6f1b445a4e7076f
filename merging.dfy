/**
 * `ContainerUtil.mergeSortedLists`: the two-cursor merge of two lists sorted
 * by a comparator, with a flag that drops the right element of every
 * cursor-aligned pair the comparator calls equal.
 *
 * The loop's schedule (which cursor advances on each turn) does not depend on
 * the flag; only what a turn appends does. So the merge is specified in two
 * parts: `MergeSteps` is the sequence of turns the loop takes, and `Emit`
 * says what the turns append.
 */
module Merging {

  /** One turn of the merge loop and the element(s) it looked at. */
  datatype Step<T> =
    | TakeLeft(x: T)         // only `list1[index1]` was taken
    | TakeRight(y: T)        // only `list2[index2]` was taken
    | TakePair(x: T, y: T)   // both cursors advanced over a comparator-equal pair

  /** Which input an element of the result came from. */
  datatype Side = FromLeft | FromRight

  /** The list1 element one turn consumes, if any. */
  function LeftOf<T>(step: Step<T>): seq<T>
  {
    match step
    case TakeLeft(x) => [x]
    case TakeRight(_) => []
    case TakePair(x, _) => [x]
  }

  /** The list2 element one turn consumes, if any. */
  function RightOf<T>(step: Step<T>): seq<T>
  {
    match step
    case TakeLeft(_) => []
    case TakeRight(y) => [y]
    case TakePair(_, y) => [y]
  }

  /** The list1 elements the turns consume, in turn order. */
  function Lefts<T>(steps: seq<Step<T>>): seq<T>
  {
    if steps == [] then [] else LeftOf(steps[0]) + Lefts(steps[1..])
  }

  /** The list2 elements the turns consume, in turn order. */
  function Rights<T>(steps: seq<Step<T>>): seq<T>
  {
    if steps == [] then [] else RightOf(steps[0]) + Rights(steps[1..])
  }

  /** The list2 element one turn drops: the right half of an equal pair, when the flag is set. */
  function DroppedOf<T>(step: Step<T>, mergeEqualItems: bool): seq<T>
  {
    if mergeEqualItems && step.TakePair? then [step.y] else []
  }

  /** The list2 element one turn keeps, if any. */
  function KeptRightOf<T>(step: Step<T>, mergeEqualItems: bool): seq<T>
  {
    if mergeEqualItems && step.TakePair? then [] else RightOf(step)
  }

  /** The list2 elements the turns drop, in turn order. */
  function Dropped<T>(steps: seq<Step<T>>, mergeEqualItems: bool): seq<T>
  {
    if steps == [] then [] else DroppedOf(steps[0], mergeEqualItems) + Dropped(steps[1..], mergeEqualItems)
  }

  /** The list2 elements the turns keep, in turn order. */
  function KeptRights<T>(steps: seq<Step<T>>, mergeEqualItems: bool): seq<T>
  {
    if steps == [] then [] else KeptRightOf(steps[0], mergeEqualItems) + KeptRights(steps[1..], mergeEqualItems)
  }

  /** What one turn appends to the result: on an equal pair the left element comes first. */
  function Emitted<T>(step: Step<T>, mergeEqualItems: bool): seq<T>
  {
    match step
    case TakeLeft(x) => [x]
    case TakeRight(y) => [y]
    case TakePair(x, y) => if mergeEqualItems then [x] else [x, y]
  }

  /** The side each appended element came from, parallel to `Emitted`. */
  function EmittedSides<T>(step: Step<T>, mergeEqualItems: bool): seq<Side>
  {
    match step
    case TakeLeft(_) => [FromLeft]
    case TakeRight(_) => [FromRight]
    case TakePair(_, _) => if mergeEqualItems then [FromLeft] else [FromLeft, FromRight]
  }

  /** Everything the turns append, in turn order. */
  function Emit<T>(steps: seq<Step<T>>, mergeEqualItems: bool): seq<T>
  {
    if steps == [] then [] else Emitted(steps[0], mergeEqualItems) + Emit(steps[1..], mergeEqualItems)
  }

  /** The origin of every appended element, parallel to `Emit`. */
  function EmitSides<T>(steps: seq<Step<T>>, mergeEqualItems: bool): seq<Side>
  {
    if steps == [] then [] else EmittedSides(steps[0], mergeEqualItems) + EmitSides(steps[1..], mergeEqualItems)
  }

  /** The elements of `r` whose origin in `sides` is `side`, in order. */
  function Pick<T>(r: seq<T>, sides: seq<Side>, side: Side): seq<T>
    requires |sides| == |r|
  {
    if r == [] then [] else (if sides[0] == side then [r[0]] else []) + Pick(r[1..], sides[1..], side)
  }

  /**
   * The turns of the merge loop on `a` and `b`. Every turn advances at least
   * one cursor, and a pair turn happens only on a comparator-equal pair.
   */
  function MergeSteps<T>(a: seq<T>, b: seq<T>, cmp: (T, T) -> int): (steps: seq<Step<T>>)
    ensures |steps| <= |a| + |b|
    ensures forall k :: 0 <= k < |steps| && steps[k].TakePair? ==> cmp(steps[k].x, steps[k].y) == 0
    decreases |a| + |b|
  {
    if a == [] && b == [] then []
    else if a == [] then [TakeRight(b[0])] + MergeSteps(a, b[1..], cmp)
    else if b == [] then [TakeLeft(a[0])] + MergeSteps(a[1..], b, cmp)
    else
      var c := cmp(a[0], b[0]);
      if c < 0 then [TakeLeft(a[0])] + MergeSteps(a[1..], b, cmp)
      else if c > 0 then [TakeRight(b[0])] + MergeSteps(a, b[1..], cmp)
      else [TakePair(a[0], b[0])] + MergeSteps(a[1..], b[1..], cmp)
  }

  /** The list `mergeSortedLists(a, b, cmp, mergeEqualItems)` returns. */
  function Merge<T>(a: seq<T>, b: seq<T>, cmp: (T, T) -> int, mergeEqualItems: bool): seq<T>
  {
    Emit(MergeSteps(a, b, cmp), mergeEqualItems)
  }

  /** The origin of every element of `Merge(a, b, cmp, mergeEqualItems)`. */
  function MergeSides<T>(a: seq<T>, b: seq<T>, cmp: (T, T) -> int, mergeEqualItems: bool): seq<Side>
  {
    EmitSides(MergeSteps(a, b, cmp), mergeEqualItems)
  }

  /** The number of cursor-aligned equal pairs the merge meets. */
  function EqualPairs<T>(a: seq<T>, b: seq<T>, cmp: (T, T) -> int): nat
  {
    |Dropped(MergeSteps(a, b, cmp), true)|
  }

  // ---------------------------------------------------------------------------
  // The loop

  method MergeSortedLists<T>(list1: seq<T>, list2: seq<T>, comparator: (T, T) -> int, mergeEqualItems: bool)
    returns (result: seq<T>)
    ensures result == Merge(list1, list2, comparator, mergeEqualItems)
    ensures |result| == |list1| + |list2| - (if mergeEqualItems then EqualPairs(list1, list2, comparator) else 0)
    ensures list1 == [] ==> result == list2
    ensures list2 == [] ==> result == list1
  {
    result := [];
    var index1, index2 := 0, 0;
    while index1 < |list1| || index2 < |list2|
      invariant 0 <= index1 <= |list1| && 0 <= index2 <= |list2|
      invariant result + Merge(list1[index1..], list2[index2..], comparator, mergeEqualItems)
                == Merge(list1, list2, comparator, mergeEqualItems)
      decreases |list1| - index1 + |list2| - index2
    {
      ghost var rest1, rest2 := list1[index1..], list2[index2..];
      ghost var before := result;
      assert rest1 != [] ==> rest1[0] == list1[index1] && rest1[1..] == list1[index1 + 1..];
      assert rest2 != [] ==> rest2[0] == list2[index2] && rest2[1..] == list2[index2 + 1..];
      ghost var appended: seq<T>;
      if index1 >= |list1| {
        MergeTakesRight(rest1, rest2, comparator, mergeEqualItems);
        appended := [list2[index2]];
        result := result + [list2[index2]];
        index2 := index2 + 1;
      } else if index2 >= |list2| {
        MergeTakesLeft(rest1, rest2, comparator, mergeEqualItems);
        appended := [list1[index1]];
        result := result + [list1[index1]];
        index1 := index1 + 1;
      } else {
        var element1, element2 := list1[index1], list2[index2];
        var c := comparator(element1, element2);
        if c < 0 {
          MergeTakesLeft(rest1, rest2, comparator, mergeEqualItems);
          appended := [element1];
          result := result + [element1];
          index1 := index1 + 1;
        } else if c > 0 {
          MergeTakesRight(rest1, rest2, comparator, mergeEqualItems);
          appended := [element2];
          result := result + [element2];
          index2 := index2 + 1;
        } else {
          MergeTakesPair(rest1, rest2, comparator, mergeEqualItems);
          appended := [element1] + (if mergeEqualItems then [] else [element2]);
          result := result + [element1];
          if !mergeEqualItems {
            result := result + [element2];
          }
          index1 := index1 + 1;
          index2 := index2 + 1;
        }
      }
      assert result == before + appended;
      AppendKeepsWhole(before, appended, Merge(list1[index1..], list2[index2..], comparator, mergeEqualItems),
                       Merge(list1, list2, comparator, mergeEqualItems));
    }
    assert list1[index1..] == [] && list2[index2..] == [];
    MergeLength(list1, list2, comparator, mergeEqualItems);
    MergeWithEmpty(list1, list2, comparator, mergeEqualItems);
  }

  // ---------------------------------------------------------------------------
  // One turn of the loop, as seen on the remaining inputs

  lemma EmitCons<T>(step: Step<T>, steps: seq<Step<T>>, mergeEqualItems: bool)
    ensures Emit([step] + steps, mergeEqualItems) == Emitted(step, mergeEqualItems) + Emit(steps, mergeEqualItems)
  {
    assert ([step] + steps)[1..] == steps;
  }

  lemma MergeTakesLeft<T>(a: seq<T>, b: seq<T>, cmp: (T, T) -> int, mergeEqualItems: bool)
    requires a != [] && (b == [] || cmp(a[0], b[0]) < 0)
    ensures Merge(a, b, cmp, mergeEqualItems) == [a[0]] + Merge(a[1..], b, cmp, mergeEqualItems)
  {
    EmitCons(TakeLeft(a[0]), MergeSteps(a[1..], b, cmp), mergeEqualItems);
  }

  lemma MergeTakesRight<T>(a: seq<T>, b: seq<T>, cmp: (T, T) -> int, mergeEqualItems: bool)
    requires b != [] && (a == [] || cmp(a[0], b[0]) > 0)
    ensures Merge(a, b, cmp, mergeEqualItems) == [b[0]] + Merge(a, b[1..], cmp, mergeEqualItems)
  {
    EmitCons(TakeRight(b[0]), MergeSteps(a, b[1..], cmp), mergeEqualItems);
  }

  lemma MergeTakesPair<T>(a: seq<T>, b: seq<T>, cmp: (T, T) -> int, mergeEqualItems: bool)
    requires a != [] && b != [] && cmp(a[0], b[0]) == 0
    ensures Merge(a, b, cmp, mergeEqualItems)
            == [a[0]] + (if mergeEqualItems then [] else [b[0]]) + Merge(a[1..], b[1..], cmp, mergeEqualItems)
  {
    EmitCons(TakePair(a[0], b[0]), MergeSteps(a[1..], b[1..], cmp), mergeEqualItems);
  }

  /** Moving the appended elements from the pending part to the done part keeps the whole. */
  lemma AppendKeepsWhole<T>(done: seq<T>, appended: seq<T>, pending: seq<T>, whole: seq<T>)
    requires done + (appended + pending) == whole
    ensures (done + appended) + pending == whole
  {
  }

  // ---------------------------------------------------------------------------
  // Facts about the turns, whatever input produced them

  /** The turns consume each input exactly once and in order. */
  lemma {:induction false} MergeStepsConsumeInputs<T>(a: seq<T>, b: seq<T>, cmp: (T, T) -> int)
    ensures Lefts(MergeSteps(a, b, cmp)) == a && Rights(MergeSteps(a, b, cmp)) == b
    decreases |a| + |b|
  {
    if a == [] && b == [] {
    } else if a == [] || (b != [] && cmp(a[0], b[0]) > 0) {
      MergeStepsConsumeInputs(a, b[1..], cmp);
      assert b == [b[0]] + b[1..];
    } else if b == [] || cmp(a[0], b[0]) < 0 {
      MergeStepsConsumeInputs(a[1..], b, cmp);
      assert a == [a[0]] + a[1..];
    } else {
      MergeStepsConsumeInputs(a[1..], b[1..], cmp);
      assert a == [a[0]] + a[1..] && b == [b[0]] + b[1..];
    }
  }

  lemma {:induction false} EmitLength<T>(steps: seq<Step<T>>, mergeEqualItems: bool)
    ensures |Emit(steps, mergeEqualItems)| + |Dropped(steps, mergeEqualItems)| == |Lefts(steps)| + |Rights(steps)|
    ensures |Dropped(steps, mergeEqualItems)| <= |Rights(steps)|
    ensures !mergeEqualItems ==> Dropped(steps, mergeEqualItems) == []
  {
    if steps != [] {
      EmitLength(steps[1..], mergeEqualItems);
    }
  }

  lemma StepMultiset<T>(step: Step<T>, mergeEqualItems: bool)
    ensures multiset(Emitted(step, mergeEqualItems)) + multiset(DroppedOf(step, mergeEqualItems))
            == multiset(LeftOf(step)) + multiset(RightOf(step))
    ensures multiset(KeptRightOf(step, mergeEqualItems)) + multiset(DroppedOf(step, mergeEqualItems))
            == multiset(RightOf(step))
  {
  }

  lemma Regroup<T>(e: multiset<T>, er: multiset<T>, d: multiset<T>, dr: multiset<T>,
                   l: multiset<T>, lr: multiset<T>, r: multiset<T>, rr: multiset<T>)
    requires e + d == l + r && er + dr == lr + rr
    ensures (e + er) + (d + dr) == (l + lr) + (r + rr)
  {
    forall x
      ensures ((e + er) + (d + dr))[x] == ((l + lr) + (r + rr))[x]
    {
      assert (e + d)[x] == (l + r)[x] && (er + dr)[x] == (lr + rr)[x];
    }
  }

  lemma {:induction false} EmitMultiset<T>(steps: seq<Step<T>>, mergeEqualItems: bool)
    ensures multiset(Emit(steps, mergeEqualItems)) + multiset(Dropped(steps, mergeEqualItems))
            == multiset(Lefts(steps)) + multiset(Rights(steps))
  {
    if steps != [] {
      var step, rest, eq := steps[0], steps[1..], mergeEqualItems;
      EmitMultiset(rest, eq);
      StepMultiset(step, eq);
      var e, d := Emitted(step, eq), DroppedOf(step, eq);
      assert multiset(Emit(steps, eq)) == multiset(e) + multiset(Emit(rest, eq)) by {
        assert Emit(steps, eq) == e + Emit(rest, eq);
      }
      assert multiset(Dropped(steps, eq)) == multiset(d) + multiset(Dropped(rest, eq)) by {
        assert Dropped(steps, eq) == d + Dropped(rest, eq);
      }
      assert multiset(Lefts(steps)) == multiset(LeftOf(step)) + multiset(Lefts(rest)) by {
        assert Lefts(steps) == LeftOf(step) + Lefts(rest);
      }
      assert multiset(Rights(steps)) == multiset(RightOf(step)) + multiset(Rights(rest)) by {
        assert Rights(steps) == RightOf(step) + Rights(rest);
      }
      Regroup(multiset(e), multiset(Emit(rest, eq)), multiset(d), multiset(Dropped(rest, eq)),
              multiset(LeftOf(step)), multiset(Lefts(rest)), multiset(RightOf(step)), multiset(Rights(rest)));
    }
  }

  lemma {:induction false} KeptAndDropped<T>(steps: seq<Step<T>>, mergeEqualItems: bool)
    ensures multiset(KeptRights(steps, mergeEqualItems)) + multiset(Dropped(steps, mergeEqualItems))
            == multiset(Rights(steps))
    ensures !mergeEqualItems ==> KeptRights(steps, mergeEqualItems) == Rights(steps)
  {
    if steps != [] {
      var step, rest, eq := steps[0], steps[1..], mergeEqualItems;
      KeptAndDropped(rest, eq);
      StepMultiset(step, eq);
      calc {
        multiset(KeptRights(steps, eq)) + multiset(Dropped(steps, eq));
        (multiset(KeptRightOf(step, eq)) + multiset(DroppedOf(step, eq))) + (multiset(KeptRights(rest, eq)) + multiset(Dropped(rest, eq)));
        multiset(Rights(steps));
      }
    }
  }

  lemma {:induction false} PickConcat<T>(r1: seq<T>, s1: seq<Side>, r2: seq<T>, s2: seq<Side>, side: Side)
    requires |s1| == |r1| && |s2| == |r2|
    ensures Pick(r1 + r2, s1 + s2, side) == Pick(r1, s1, side) + Pick(r2, s2, side)
  {
    if r1 != [] {
      var head := if s1[0] == side then [r1[0]] else [];
      assert (r1 + r2)[0] == r1[0] && (s1 + s2)[0] == s1[0];
      assert (r1 + r2)[1..] == r1[1..] + r2 && (s1 + s2)[1..] == s1[1..] + s2;
      PickConcat(r1[1..], s1[1..], r2, s2, side);
      calc {
        Pick(r1 + r2, s1 + s2, side);
        head + Pick(r1[1..] + r2, s1[1..] + s2, side);
        head + (Pick(r1[1..], s1[1..], side) + Pick(r2, s2, side));
        (head + Pick(r1[1..], s1[1..], side)) + Pick(r2, s2, side);
        Pick(r1, s1, side) + Pick(r2, s2, side);
      }
    } else {
      assert r1 + r2 == r2 && s1 + s2 == s2;
    }
  }

  lemma {:induction false} PickMultiset<T>(r: seq<T>, sides: seq<Side>, side: Side)
    requires |sides| == |r|
    ensures multiset(Pick(r, sides, side)) <= multiset(r)
  {
    if r != [] {
      PickMultiset(r[1..], sides[1..], side);
      assert r == [r[0]] + r[1..];
    }
  }

  lemma StepOrder<T>(step: Step<T>, mergeEqualItems: bool)
    ensures |EmittedSides(step, mergeEqualItems)| == |Emitted(step, mergeEqualItems)|
    ensures Pick(Emitted(step, mergeEqualItems), EmittedSides(step, mergeEqualItems), FromLeft) == LeftOf(step)
    ensures Pick(Emitted(step, mergeEqualItems), EmittedSides(step, mergeEqualItems), FromRight)
            == KeptRightOf(step, mergeEqualItems)
  {
    match step
    case TakeLeft(x) =>
      assert Pick([x], [FromLeft], FromLeft) == [x] + Pick([], [], FromLeft);
      assert Pick([x], [FromLeft], FromRight) == Pick([], [], FromRight);
    case TakeRight(y) =>
      assert Pick([y], [FromRight], FromLeft) == Pick([], [], FromLeft);
      assert Pick([y], [FromRight], FromRight) == [y] + Pick([], [], FromRight);
    case TakePair(x, y) =>
      assert Pick([x], [FromLeft], FromLeft) == [x] + Pick([], [], FromLeft);
      assert Pick([x], [FromLeft], FromRight) == Pick([], [], FromRight);
      assert Pick([y], [FromRight], FromLeft) == Pick([], [], FromLeft);
      assert Pick([y], [FromRight], FromRight) == [y] + Pick([], [], FromRight);
      PickConcat([x], [FromLeft], [y], [FromRight], FromLeft);
      PickConcat([x], [FromLeft], [y], [FromRight], FromRight);
  }

  lemma {:induction false} EmitOrder<T>(steps: seq<Step<T>>, mergeEqualItems: bool)
    ensures |EmitSides(steps, mergeEqualItems)| == |Emit(steps, mergeEqualItems)|
    ensures Pick(Emit(steps, mergeEqualItems), EmitSides(steps, mergeEqualItems), FromLeft) == Lefts(steps)
    ensures Pick(Emit(steps, mergeEqualItems), EmitSides(steps, mergeEqualItems), FromRight)
            == KeptRights(steps, mergeEqualItems)
  {
    if steps != [] {
      var step, rest, eq := steps[0], steps[1..], mergeEqualItems;
      EmitOrder(rest, eq);
      StepOrder(step, eq);
      var e, s := Emitted(step, eq), EmittedSides(step, eq);
      var er, sr := Emit(rest, eq), EmitSides(rest, eq);
      assert Emit(steps, eq) == e + er && EmitSides(steps, eq) == s + sr;
      PickConcat(e, s, er, sr, FromLeft);
      PickConcat(e, s, er, sr, FromRight);
    }
  }

  // ---------------------------------------------------------------------------
  // Properties of mergeSortedLists

  /** Without the flag nothing is lost; with it, exactly one list2 element per equal pair is. */
  lemma MergeLength<T>(a: seq<T>, b: seq<T>, cmp: (T, T) -> int, mergeEqualItems: bool)
    ensures |Merge(a, b, cmp, mergeEqualItems)| == |a| + |b| - (if mergeEqualItems then EqualPairs(a, b, cmp) else 0)
    ensures EqualPairs(a, b, cmp) <= |b|
  {
    var steps := MergeSteps(a, b, cmp);
    MergeStepsConsumeInputs(a, b, cmp);
    EmitLength(steps, mergeEqualItems);
    EmitLength(steps, true);
  }

  /** Without the flag the result is a permutation of the two inputs together. */
  lemma MergeIsPermutation<T>(a: seq<T>, b: seq<T>, cmp: (T, T) -> int)
    ensures multiset(Merge(a, b, cmp, false)) == multiset(a) + multiset(b)
  {
    var steps := MergeSteps(a, b, cmp);
    MergeStepsConsumeInputs(a, b, cmp);
    EmitMultiset(steps, false);
    EmitLength(steps, false);
  }

  /**
   * With the flag, the result together with the dropped list2 elements is the
   * two inputs; no list1 element is ever dropped, and the dropped elements are
   * as many as the equal pairs.
   */
  lemma MergeEqualDropsRight<T>(a: seq<T>, b: seq<T>, cmp: (T, T) -> int)
    ensures var dropped := Dropped(MergeSteps(a, b, cmp), true);
            && multiset(Merge(a, b, cmp, true)) + multiset(dropped) == multiset(a) + multiset(b)
            && multiset(a) <= multiset(Merge(a, b, cmp, true))
            && multiset(dropped) <= multiset(b)
            && |dropped| == EqualPairs(a, b, cmp)
  {
    var steps := MergeSteps(a, b, cmp);
    MergeStepsConsumeInputs(a, b, cmp);
    EmitMultiset(steps, true);
    KeptAndDropped(steps, true);
    EmitOrder(steps, true);
    PickMultiset(Emit(steps, true), EmitSides(steps, true), FromLeft);
  }

  /**
   * The list1 elements appear in the result in their original order, and so
   * do the list2 elements that are kept: all of them without the flag, all but
   * the dropped ones with it.
   */
  lemma MergeKeepsInputOrder<T>(a: seq<T>, b: seq<T>, cmp: (T, T) -> int, mergeEqualItems: bool)
    ensures var r, sides := Merge(a, b, cmp, mergeEqualItems), MergeSides(a, b, cmp, mergeEqualItems);
            && |sides| == |r|
            && Pick(r, sides, FromLeft) == a
            && Pick(r, sides, FromRight) == KeptRights(MergeSteps(a, b, cmp), mergeEqualItems)
            && (!mergeEqualItems ==> Pick(r, sides, FromRight) == b)
  {
    var steps := MergeSteps(a, b, cmp);
    MergeStepsConsumeInputs(a, b, cmp);
    EmitOrder(steps, mergeEqualItems);
    KeptAndDropped(steps, mergeEqualItems);
  }

  /** With one input empty the result is a copy of the other, in order. */
  lemma {:induction false} MergeWithEmpty<T>(a: seq<T>, b: seq<T>, cmp: (T, T) -> int, mergeEqualItems: bool)
    ensures a == [] ==> Merge(a, b, cmp, mergeEqualItems) == b
    ensures b == [] ==> Merge(a, b, cmp, mergeEqualItems) == a
    decreases |a| + |b|
  {
    if a == [] && b != [] {
      MergeWithEmpty(a, b[1..], cmp, mergeEqualItems);
      MergeTakesRight(a, b, cmp, mergeEqualItems);
      assert b == [b[0]] + b[1..];
    } else if b == [] && a != [] {
      MergeWithEmpty(a[1..], b, cmp, mergeEqualItems);
      MergeTakesLeft(a, b, cmp, mergeEqualItems);
      assert a == [a[0]] + a[1..];
    }
  }

  /** Every element of the result comes from one of the inputs. */
  lemma MergeMembers<T>(a: seq<T>, b: seq<T>, cmp: (T, T) -> int, mergeEqualItems: bool, z: T)
    requires z in Merge(a, b, cmp, mergeEqualItems)
    ensures z in a || z in b
  {
    var steps := MergeSteps(a, b, cmp);
    MergeStepsConsumeInputs(a, b, cmp);
    EmitMultiset(steps, mergeEqualItems);
    assert z in multiset(Emit(steps, mergeEqualItems));
    assert z in multiset(a) + multiset(b);
  }

  // ---------------------------------------------------------------------------
  // Sortedness

  /**
   * The part of the `java.util.Comparator` contract the merge relies on: the
   * sign of `cmp(x, y)` is the opposite of the sign of `cmp(y, x)`, and "not
   * greater" is transitive.
   */
  ghost predicate IsTotalPreorder<T(!new)>(cmp: (T, T) -> int)
  {
    && (forall x, y :: cmp(x, y) < 0 <==> cmp(y, x) > 0)
    && (forall x, y, z :: cmp(x, y) <= 0 && cmp(y, z) <= 0 ==> cmp(x, z) <= 0)
  }

  ghost predicate SortedBy<T>(s: seq<T>, cmp: (T, T) -> int)
  {
    forall i, j :: 0 <= i < j < |s| ==> cmp(s[i], s[j]) <= 0
  }

  lemma SortedCons<T>(h: T, s: seq<T>, cmp: (T, T) -> int)
    requires SortedBy(s, cmp)
    requires forall z :: z in s ==> cmp(h, z) <= 0
    ensures SortedBy([h] + s, cmp)
  {
    forall i, j | 0 <= i < j < |[h] + s|
      ensures cmp(([h] + s)[i], ([h] + s)[j]) <= 0
    {
      if i == 0 {
        assert ([h] + s)[j] == s[j - 1];
        assert s[j - 1] in s;
      } else {
        assert ([h] + s)[i] == s[i - 1] && ([h] + s)[j] == s[j - 1];
      }
    }
  }

  /** `h` is not greater than anything in `s`, given that it is not greater than `s`'s first element. */
  lemma BelowSorted<T(!new)>(h: T, s: seq<T>, cmp: (T, T) -> int)
    requires IsTotalPreorder(cmp) && SortedBy(s, cmp)
    requires s != [] ==> cmp(h, s[0]) <= 0
    ensures forall z :: z in s ==> cmp(h, z) <= 0
  {
    forall z | z in s
      ensures cmp(h, z) <= 0
    {
      var k :| 0 <= k < |s| && s[k] == z;
      if k > 0 {
        assert cmp(s[0], s[k]) <= 0;
      }
    }
  }

  /** The turn that takes `list1[index1]` alone keeps the result sorted. */
  lemma SortedAfterLeftTurn<T(!new)>(a: seq<T>, b: seq<T>, cmp: (T, T) -> int, mergeEqualItems: bool)
    requires IsTotalPreorder(cmp) && SortedBy(a, cmp) && SortedBy(b, cmp)
    requires a != [] && (b == [] || cmp(a[0], b[0]) < 0)
    requires SortedBy(Merge(a[1..], b, cmp, mergeEqualItems), cmp)
    ensures SortedBy(Merge(a, b, cmp, mergeEqualItems), cmp)
  {
    var rest := Merge(a[1..], b, cmp, mergeEqualItems);
    MergeTakesLeft(a, b, cmp, mergeEqualItems);
    BelowSorted(a[0], a[1..], cmp);
    BelowSorted(a[0], b, cmp);
    forall z | z in rest ensures cmp(a[0], z) <= 0 {
      MergeMembers(a[1..], b, cmp, mergeEqualItems, z);
    }
    SortedCons(a[0], rest, cmp);
  }

  /** The turn that takes `list2[index2]` alone keeps the result sorted. */
  lemma SortedAfterRightTurn<T(!new)>(a: seq<T>, b: seq<T>, cmp: (T, T) -> int, mergeEqualItems: bool)
    requires IsTotalPreorder(cmp) && SortedBy(a, cmp) && SortedBy(b, cmp)
    requires b != [] && (a == [] || cmp(a[0], b[0]) > 0)
    requires SortedBy(Merge(a, b[1..], cmp, mergeEqualItems), cmp)
    ensures SortedBy(Merge(a, b, cmp, mergeEqualItems), cmp)
  {
    var rest := Merge(a, b[1..], cmp, mergeEqualItems);
    MergeTakesRight(a, b, cmp, mergeEqualItems);
    BelowSorted(b[0], b[1..], cmp);
    BelowSorted(b[0], a, cmp);
    forall z | z in rest ensures cmp(b[0], z) <= 0 {
      MergeMembers(a, b[1..], cmp, mergeEqualItems, z);
    }
    SortedCons(b[0], rest, cmp);
  }

  /** The turn over an equal pair keeps the result sorted, whether or not it drops the right element. */
  lemma SortedAfterPairTurn<T(!new)>(a: seq<T>, b: seq<T>, cmp: (T, T) -> int, mergeEqualItems: bool)
    requires IsTotalPreorder(cmp) && SortedBy(a, cmp) && SortedBy(b, cmp)
    requires a != [] && b != [] && cmp(a[0], b[0]) == 0
    requires SortedBy(Merge(a[1..], b[1..], cmp, mergeEqualItems), cmp)
    ensures SortedBy(Merge(a, b, cmp, mergeEqualItems), cmp)
  {
    var rest := Merge(a[1..], b[1..], cmp, mergeEqualItems);
    MergeTakesPair(a, b, cmp, mergeEqualItems);
    BelowSorted(a[0], a[1..], cmp);
    BelowSorted(b[0], b[1..], cmp);
    BelowSorted(b[0], a[1..], cmp);
    BelowSorted(a[0], b[1..], cmp);
    forall z | z in rest ensures cmp(a[0], z) <= 0 && cmp(b[0], z) <= 0 {
      MergeMembers(a[1..], b[1..], cmp, mergeEqualItems, z);
    }
    if mergeEqualItems {
      SortedCons(a[0], rest, cmp);
    } else {
      assert [a[0]] + [b[0]] + rest == [a[0]] + ([b[0]] + rest);
      SortedCons(b[0], rest, cmp);
      SortedCons(a[0], [b[0]] + rest, cmp);
    }
  }

  /** Merging two sorted lists under a comparator that keeps its contract gives a sorted list. */
  lemma {:induction false} MergeSorted<T(!new)>(a: seq<T>, b: seq<T>, cmp: (T, T) -> int, mergeEqualItems: bool)
    requires IsTotalPreorder(cmp)
    requires SortedBy(a, cmp) && SortedBy(b, cmp)
    ensures SortedBy(Merge(a, b, cmp, mergeEqualItems), cmp)
    decreases |a| + |b|
  {
    if a == [] || b == [] {
      MergeWithEmpty(a, b, cmp, mergeEqualItems);
    } else {
      assert SortedBy(a[1..], cmp) && SortedBy(b[1..], cmp);
      var c := cmp(a[0], b[0]);
      if c < 0 {
        MergeSorted(a[1..], b, cmp, mergeEqualItems);
        SortedAfterLeftTurn(a, b, cmp, mergeEqualItems);
      } else if c > 0 {
        MergeSorted(a, b[1..], cmp, mergeEqualItems);
        SortedAfterRightTurn(a, b, cmp, mergeEqualItems);
      } else {
        MergeSorted(a[1..], b[1..], cmp, mergeEqualItems);
        SortedAfterPairTurn(a, b, cmp, mergeEqualItems);
      }
    }
  }

  // ---------------------------------------------------------------------------
  // Worked examples

  function CompareInts(x: int, y: int): int
  {
    if x < y then -1 else if x > y then 1 else 0
  }

  /** The example's turns: 1 alone, 2 alone, the pair (3, 3), then 3, 4 and 5 alone. */
  lemma MergeExampleSteps(mergeEqualItems: bool)
    ensures Merge([1, 3, 3, 5], [2, 3, 4], CompareInts, mergeEqualItems)
            == [1, 2, 3] + (if mergeEqualItems then [] else [3]) + [3, 4, 5]
  {
    var eq := mergeEqualItems;
    MergeWithEmpty([5], [], CompareInts, eq);
    assert [4][1..] == [];
    MergeTakesRight([5], [4], CompareInts, eq);
    assert Merge([5], [4], CompareInts, eq) == [4, 5];
    assert [3, 5][1..] == [5];
    MergeTakesLeft([3, 5], [4], CompareInts, eq);
    assert Merge([3, 5], [4], CompareInts, eq) == [3, 4, 5];
    assert [3, 3, 5][1..] == [3, 5] && [3, 4][1..] == [4];
    MergeTakesPair([3, 3, 5], [3, 4], CompareInts, eq);
    assert Merge([3, 3, 5], [3, 4], CompareInts, eq) == [3] + (if eq then [] else [3]) + [3, 4, 5];
    assert [2, 3, 4][1..] == [3, 4];
    MergeTakesRight([3, 3, 5], [2, 3, 4], CompareInts, eq);
    assert [1, 3, 3, 5][1..] == [3, 3, 5];
    MergeTakesLeft([1, 3, 3, 5], [2, 3, 4], CompareInts, eq);
  }

  /**
   * Only cursor-aligned equal pairs collapse: the second 3 of list1 meets 4,
   * not a 3, so it stays even with the flag.
   */
  lemma MergeExample()
    ensures Merge([1, 3, 3, 5], [2, 3, 4], CompareInts, true) == [1, 2, 3, 3, 4, 5]
    ensures Merge([1, 3, 3, 5], [2, 3, 4], CompareInts, false) == [1, 2, 3, 3, 3, 4, 5]
  {
    MergeExampleSteps(true);
    MergeExampleSteps(false);
  }

  /** Orders pairs by their first component only, so equal keys stay distinguishable. */
  function CompareKeys(p: (int, char), q: (int, char)): int
  {
    CompareInts(p.0, q.0)
  }

  /**
   * Equal runs longer than one element are resolved pair by pair in cursor
   * order, so a list2 element can land between two equal list1 elements: the
   * merge is not stable in the sense of "all equal list1 elements first".
   */
  lemma MergeEqualRunsInterleave()
    ensures Merge([(3, 'a'), (3, 'b')], [(3, 'c')], CompareKeys, false) == [(3, 'a'), (3, 'c'), (3, 'b')]
  {
    var a, b := [(3, 'a'), (3, 'b')], [(3, 'c')];
    assert a[1..] == [(3, 'b')] && b[1..] == [];
    MergeWithEmpty([(3, 'b')], [], CompareKeys, false);
    MergeTakesPair(a, b, CompareKeys, false);
  }
}
