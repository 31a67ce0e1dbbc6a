/**
 * The merge-based set helpers of htd (include/htd/Helpers.hpp): sizes of
 * unions, differences and intersections of sorted vertex containers, the
 * emptiness tests, the filtered union and the in-place union. Each method
 * walks two (or three) strictly increasing sequences with cursors exactly
 * as the C++ iterators do and is proved against the mathematical sets.
 */
module Helpers {
  import opened SortedSets
  import opened Outcomes

  // ---------------------------------------------------------------------
  // Facts about one step of a two-cursor merge
  // ---------------------------------------------------------------------

  /** Taking `a[i]` when it lies below `b[j]` (or `b` is exhausted). */
  lemma TakeA(a: seq<int>, b: seq<int>, i: int, j: int)
    requires StrictlyIncreasing(a) && StrictlyIncreasing(b)
    requires Frontier(a, b, i, j) && i < |a| && (j < |b| ==> a[i] < b[j])
    ensures Frontier(a, b, i + 1, j)
    ensures Elems(a[..i + 1]) == Elems(a[..i]) + {a[i]}
    ensures a[i] !in Elems(a[..i]) && a[i] !in Elems(b[..j]) && a[i] !in Elems(b)
  {
    ElemsPrefixStep(a, i);
    NotInSorted(b, a[i], j);
    NotInSorted(a[..i], a[i], i);
  }

  /** Taking `b[j]` when it lies below `a[i]` (or `a` is exhausted). */
  lemma TakeB(a: seq<int>, b: seq<int>, i: int, j: int)
    requires StrictlyIncreasing(a) && StrictlyIncreasing(b)
    requires Frontier(a, b, i, j) && j < |b| && (i < |a| ==> b[j] < a[i])
    ensures Frontier(a, b, i, j + 1)
    ensures Elems(b[..j + 1]) == Elems(b[..j]) + {b[j]}
    ensures b[j] !in Elems(b[..j]) && b[j] !in Elems(a[..i]) && b[j] !in Elems(a)
  {
    FrontierSwap(a, b, i, j);
    TakeA(b, a, j, i);
    FrontierSwap(b, a, j + 1, i);
  }

  /** Taking the common value `a[i] == b[j]` from both. */
  lemma TakeBoth(a: seq<int>, b: seq<int>, i: int, j: int)
    requires StrictlyIncreasing(a) && StrictlyIncreasing(b)
    requires Frontier(a, b, i, j) && i < |a| && j < |b| && a[i] == b[j]
    ensures Frontier(a, b, i + 1, j + 1)
    ensures Elems(a[..i + 1]) == Elems(a[..i]) + {a[i]}
    ensures Elems(b[..j + 1]) == Elems(b[..j]) + {b[j]}
    ensures a[i] !in Elems(a[..i]) && a[i] !in Elems(b[..j])
    ensures a[i] in Elems(b) && b[j] in Elems(a)
  {
    ElemsPrefixStep(a, i);
    ElemsPrefixStep(b, j);
    NotInSorted(a[..i], a[i], i);
    NotInSorted(b[..j], b[j], j);
  }

  lemma ElemsEmptyPrefix(s: seq<int>)
    ensures Elems(s[..0]) == {}
  {
    assert s[..0] == [];
  }

  /** A strictly increasing sequence splits into a prefix and a suffix that share no value. */
  lemma SplitDisjoint(a: seq<int>, i: int)
    requires StrictlyIncreasing(a) && 0 <= i <= |a|
    ensures Elems(a) == Elems(a[..i]) + Elems(a[i..])
    ensures Elems(a[..i]) !! Elems(a[i..])
    ensures |Elems(a[i..])| == |a| - i
  {
    ElemsSplit(a, i);
    assert StrictlyIncreasing(a[i..]);
    CardElems(a[i..]);
    PrefixSuffixDisjoint(a, i);
  }

  /** In a strictly increasing sequence, the values before position `i` and from `i` on are disjoint. */
  lemma PrefixSuffixDisjoint(a: seq<int>, i: int)
    requires StrictlyIncreasing(a) && 0 <= i <= |a|
    ensures Elems(a[..i]) !! Elems(a[i..])
  {
    forall x | x in Elems(a[..i])
      ensures x !in Elems(a[i..])
    {
      var p :| 0 <= p < i && a[..i][p] == x;
      forall q | 0 <= q < |a| - i
        ensures a[i..][q] != x
      {
        assert a[p] < a[i + q];
      }
    }
  }

  /** Once `b` is exhausted, what is left of `a` is fresh with respect to everything else. */
  lemma RestFresh(a: seq<int>, b: seq<int>, i: int)
    requires StrictlyIncreasing(a) && StrictlyIncreasing(b)
    requires Frontier(a, b, i, |b|)
    ensures Elems(a) == Elems(a[..i]) + Elems(a[i..])
    ensures Elems(a[..i]) !! Elems(a[i..]) && Elems(b) !! Elems(a[i..])
    ensures |Elems(a[i..])| == |a| - i
  {
    SplitDisjoint(a, i);
    if i < |a| {
      NotInTail(a, b, i);
    } else {
      assert a[i..] == [];
    }
  }

  lemma UnionSplitCard(P: set<int>, S: set<int>, B: set<int>)
    requires S !! P && S !! B
    ensures |(P + S) + B| == |P + B| + |S|
  {
    assert (P + S) + B == (P + B) + S;
    DisjointUnionCard(P + B, S);
  }

  lemma DifferenceSplitCard(P: set<int>, S: set<int>, B: set<int>)
    requires S !! P && S !! B
    ensures |(P + S) - B| == |P - B| + |S|
  {
    assert (P + S) - B == (P - B) + S;
    DisjointUnionCard(P - B, S);
  }

  lemma IntersectionSplit(P: set<int>, S: set<int>, B: set<int>)
    requires S !! B
    ensures (P + S) * B == P * B
  {
  }

  /** Once `b` is exhausted, the rest of `a` adds one fresh value per position. */
  lemma UnionTail(a: seq<int>, b: seq<int>, i: int)
    requires StrictlyIncreasing(a) && StrictlyIncreasing(b)
    requires Frontier(a, b, i, |b|)
    ensures |Elems(a) + Elems(b)| == |Elems(a[..i]) + Elems(b)| + (|a| - i)
  {
    RestFresh(a, b, i);
    UnionSplitCard(Elems(a[..i]), Elems(a[i..]), Elems(b));
  }

  /** Once `b` is exhausted, every remaining value of `a` is outside `b`. */
  lemma DifferenceTail(a: seq<int>, b: seq<int>, i: int)
    requires StrictlyIncreasing(a) && StrictlyIncreasing(b)
    requires Frontier(a, b, i, |b|)
    ensures |Elems(a) - Elems(b)| == |Elems(a[..i]) - Elems(b)| + (|a| - i)
  {
    RestFresh(a, b, i);
    DifferenceSplitCard(Elems(a[..i]), Elems(a[i..]), Elems(b));
  }

  /** Once `b` is exhausted, no remaining value of `a` is shared with `b`. */
  lemma IntersectionTail(a: seq<int>, b: seq<int>, i: int)
    requires StrictlyIncreasing(a) && StrictlyIncreasing(b)
    requires Frontier(a, b, i, |b|)
    ensures Elems(a) * Elems(b) == Elems(a[..i]) * Elems(b)
  {
    RestFresh(a, b, i);
    IntersectionSplit(Elems(a[..i]), Elems(a[i..]), Elems(b));
  }

  lemma AddFreshCard(S: set<int>, x: int)
    requires x !in S
    ensures |S + {x}| == |S| + 1
  {
  }

  lemma IntersectAdd(S: set<int>, B: set<int>, x: int)
    requires x !in S
    ensures |(S + {x}) * B| == |S * B| + (if x in B then 1 else 0)
  {
    if x in B {
      assert (S + {x}) * B == (S * B) + {x};
    } else {
      assert (S + {x}) * B == S * B;
    }
  }

  // ---------------------------------------------------------------------
  // compute_set_union_size
  // ---------------------------------------------------------------------

  /** The loop invariant of SetUnionSize. */
  ghost predicate UnionSizeProgress(a: seq<int>, b: seq<int>, i: int, j: int, r: int) {
    StrictlyIncreasing(a) && StrictlyIncreasing(b) &&
    Frontier(a, b, i, j) && r == |Elems(a[..i]) + Elems(b[..j])|
  }

  lemma UnionAddFresh(P: set<int>, Q: set<int>, x: int)
    requires x !in P && x !in Q
    ensures |(P + {x}) + Q| == |P + Q| + 1
    ensures |P + (Q + {x})| == |P + Q| + 1
    ensures |(P + {x}) + (Q + {x})| == |P + Q| + 1
  {
    assert (P + {x}) + Q == (P + Q) + {x};
    assert P + (Q + {x}) == (P + Q) + {x};
    assert (P + {x}) + (Q + {x}) == (P + Q) + {x};
  }

  lemma UnionSizeStep(a: seq<int>, b: seq<int>, i: int, j: int, r: int)
    requires UnionSizeProgress(a, b, i, j, r) && i < |a| && j < |b|
    ensures b[j] < a[i] ==> UnionSizeProgress(a, b, i, j + 1, r + 1)
    ensures a[i] < b[j] ==> UnionSizeProgress(a, b, i + 1, j, r + 1)
    ensures a[i] == b[j] ==> UnionSizeProgress(a, b, i + 1, j + 1, r + 1)
  {
    if b[j] < a[i] {
      TakeB(a, b, i, j);
      UnionAddFresh(Elems(a[..i]), Elems(b[..j]), b[j]);
    } else if a[i] < b[j] {
      TakeA(a, b, i, j);
      UnionAddFresh(Elems(a[..i]), Elems(b[..j]), a[i]);
    } else {
      TakeBoth(a, b, i, j);
      UnionAddFresh(Elems(a[..i]), Elems(b[..j]), a[i]);
    }
  }

  lemma UnionSizeRestOfA(a: seq<int>, b: seq<int>, i: int, r: int)
    requires UnionSizeProgress(a, b, i, |b|, r)
    ensures UnionSizeProgress(a, b, |a|, |b|, r + (|a| - i))
  {
    UnionTail(a, b, i);
    ElemsFull(a);
    ElemsFull(b);
  }

  lemma UnionSizeRestOfB(a: seq<int>, b: seq<int>, j: int, r: int)
    requires UnionSizeProgress(a, b, |a|, j, r)
    ensures r + (|b| - j) == |Elems(a) + Elems(b)|
  {
    ElemsFull(a);
    FrontierSwap(a, b, |a|, j);
    UnionTail(b, a, j);
    assert Elems(b[..j]) + Elems(a) == Elems(a) + Elems(b[..j]);
    assert Elems(b) + Elems(a) == Elems(a) + Elems(b);
  }

  /** |A ∪ B| for two sorted, duplicate-free containers. */
  method SetUnionSize(a: seq<int>, b: seq<int>) returns (r: nat)
    requires StrictlyIncreasing(a) && StrictlyIncreasing(b)
    ensures r == |Elems(a) + Elems(b)|
  {
    var i, j := 0, 0;
    r := 0;
    ElemsEmptyPrefix(a);
    ElemsEmptyPrefix(b);
    while i != |a|
      invariant UnionSizeProgress(a, b, i, j, r)
      decreases |a| - i + |b| - j
    {
      if j == |b| {
        UnionSizeRestOfA(a, b, i, r);
        r := r + (|a| - i);
        i := |a|;
      } else {
        var value1, value2 := a[i], b[j];
        UnionSizeStep(a, b, i, j, r);
        r := r + 1;
        if value2 < value1 {
          j := j + 1;
        } else {
          if !(value1 < value2) {
            j := j + 1;
          }
          i := i + 1;
        }
      }
    }
    UnionSizeRestOfB(a, b, j, r);
    r := r + (|b| - j);
  }

  // ---------------------------------------------------------------------
  // compute_set_difference_size
  // ---------------------------------------------------------------------

  /** The loop invariant of SetDifferenceSize: `r` counts the values of `a[..i]` outside `b`. */
  ghost predicate DifferenceProgress(a: seq<int>, b: seq<int>, i: int, j: int, r: int) {
    StrictlyIncreasing(a) && StrictlyIncreasing(b) && Frontier(a, b, i, j) &&
    r == |Elems(a[..i]) - Elems(b)|
  }

  /** Passing a value of `a` that is below the cursor of `b` counts one more value outside `b`. */
  lemma DifferenceSkipA(a: seq<int>, b: seq<int>, i: int, j: int, r: int)
    requires DifferenceProgress(a, b, i, j, r) && i < |a| && j < |b| && a[i] < b[j]
    ensures DifferenceProgress(a, b, i + 1, j, r + 1)
  {
    TakeA(a, b, i, j);
    FilteredAddFresh(Elems(a[..i]), Elems(b), a[i]);
  }

  /** Passing a value both sides hold leaves the count. */
  lemma DifferenceMatch(a: seq<int>, b: seq<int>, i: int, j: int, r: int)
    requires DifferenceProgress(a, b, i, j, r) && i < |a| && j < |b| && a[i] == b[j]
    ensures DifferenceProgress(a, b, i + 1, j + 1, r)
  {
    TakeBoth(a, b, i, j);
    FilteredAddFresh(Elems(a[..i]), Elems(b), a[i]);
  }

  /** Passing a value of `b` that is below the cursor of `a` leaves the count. */
  lemma DifferenceSkipB(a: seq<int>, b: seq<int>, i: int, j: int, r: int)
    requires DifferenceProgress(a, b, i, j, r) && i < |a| && j < |b| && b[j] < a[i]
    ensures DifferenceProgress(a, b, i, j + 1, r)
  {
    TakeB(a, b, i, j);
  }

  lemma DifferenceFinish(a: seq<int>, b: seq<int>, i: int, j: int, r: int)
    requires DifferenceProgress(a, b, i, j, r) && (i == |a| || j == |b|)
    ensures r + (|a| - i) == |Elems(a) - Elems(b)|
  {
    if j == |b| {
      DifferenceTail(a, b, i);
    } else {
      ElemsFull(a);
    }
  }

  /** One pass of the merge loop of SetDifferenceSize. */
  method DifferenceMergeStep(a: seq<int>, b: seq<int>, i0: int, j0: int, r0: int) returns (i: int, j: int, r: int)
    requires DifferenceProgress(a, b, i0, j0, r0) && i0 < |a| && j0 < |b|
    ensures DifferenceProgress(a, b, i, j, r)
    ensures i0 <= i && j0 <= j && i + j > i0 + j0
  {
    i, j, r := i0, j0, r0;
    var value1, value2 := a[i], b[j];
    if value1 < value2 {
      DifferenceSkipA(a, b, i, j, r);
      r := r + 1;
      i := i + 1;
    } else {
      if !(value2 < value1) {
        DifferenceMatch(a, b, i, j, r);
        i := i + 1;
      } else {
        DifferenceSkipB(a, b, i, j, r);
      }
      j := j + 1;
    }
  }

  /** |A \ B| for two sorted, duplicate-free containers. */
  method SetDifferenceSize(a: seq<int>, b: seq<int>) returns (r: nat)
    requires StrictlyIncreasing(a) && StrictlyIncreasing(b)
    ensures r == |Elems(a) - Elems(b)|
  {
    var ret := 0;
    var count1, count2 := |a|, |b|;
    var index1, index2 := 0, 0;
    ElemsEmptyPrefix(a);
    while index1 < count1 && index2 < count2
      invariant DifferenceProgress(a, b, index1, index2, ret)
      decreases count1 - index1 + count2 - index2
    {
      index1, index2, ret := DifferenceMergeStep(a, b, index1, index2, ret);
    }
    DifferenceFinish(a, b, index1, index2, ret);
    r := ret + (count1 - index1);
  }

  // ---------------------------------------------------------------------
  // compute_symmetric_difference_sizes
  // ---------------------------------------------------------------------

  /**
   * The values of `b` that are absent from `a` and lie below the largest
   * value of `a`: exactly the ones the merge loop meets before `a` runs out.
   */
  function BelowLast(a: seq<int>, b: seq<int>): set<int> {
    if |a| == 0 then {} else set x | x in b && x !in a && x < a[|a| - 1]
  }

  lemma SymmetricSecondExit(a: seq<int>, b: seq<int>, i: int, j: int)
    requires StrictlyIncreasing(a) && StrictlyIncreasing(b)
    requires Frontier(a, b, i, j) && (i == |a| || j == |b|)
    requires j > 0 ==> |a| > 0 && b[j - 1] <= a[|a| - 1]
    ensures Elems(b[..j]) - Elems(a) == BelowLast(a, b)
  {
    forall x | x in Elems(b[..j]) - Elems(a)
      ensures x in BelowLast(a, b)
    {
      var k :| 0 <= k < j && b[k] == x;
      assert b[k] <= b[j - 1];
      assert a[|a| - 1] in Elems(a);
    }
    forall x | x in BelowLast(a, b)
      ensures x in Elems(b[..j]) - Elems(a)
    {
      var k :| 0 <= k < |b| && b[k] == x;
      assert k < j;
      assert b[..j][k] == x;
    }
  }

  /** The loop invariant of SymmetricDifferenceSizes. */
  ghost predicate SymmetricProgress(a: seq<int>, b: seq<int>, i: int, j: int, first: int, second: int) {
    StrictlyIncreasing(a) && StrictlyIncreasing(b) && Frontier(a, b, i, j) &&
    first == |Elems(a[..i]) - Elems(b)| && second == |Elems(b[..j]) - Elems(a)| &&
    (j > 0 ==> |a| > 0 && b[j - 1] <= a[|a| - 1])
  }

  lemma SymmetricStepA(a: seq<int>, b: seq<int>, i: int, j: int, first: int, second: int)
    requires SymmetricProgress(a, b, i, j, first, second) && i < |a| && j < |b| && a[i] < b[j]
    ensures SymmetricProgress(a, b, i + 1, j, first + 1, second)
  {
    TakeA(a, b, i, j);
    FilteredAddFresh(Elems(a[..i]), Elems(b), a[i]);
  }

  lemma SymmetricStepBoth(a: seq<int>, b: seq<int>, i: int, j: int, first: int, second: int)
    requires SymmetricProgress(a, b, i, j, first, second) && i < |a| && j < |b| && a[i] == b[j]
    ensures SymmetricProgress(a, b, i + 1, j + 1, first, second)
  {
    AtMostLast(a, i);
    TakeBoth(a, b, i, j);
    FilteredAddFresh(Elems(a[..i]), Elems(b), a[i]);
    FilteredAddFresh(Elems(b[..j]), Elems(a), b[j]);
  }

  lemma SymmetricStepB(a: seq<int>, b: seq<int>, i: int, j: int, first: int, second: int)
    requires SymmetricProgress(a, b, i, j, first, second) && i < |a| && j < |b| && b[j] < a[i]
    ensures SymmetricProgress(a, b, i, j + 1, first, second + 1)
  {
    AtMostLast(a, i);
    TakeB(a, b, i, j);
    FilteredAddFresh(Elems(b[..j]), Elems(a), b[j]);
  }

  lemma SymmetricFinish(a: seq<int>, b: seq<int>, i: int, j: int, first: int, second: int)
    requires SymmetricProgress(a, b, i, j, first, second) && (i == |a| || j == |b|)
    ensures first + (|a| - i) == |Elems(a) - Elems(b)|
    ensures second == |BelowLast(a, b)|
  {
    SymmetricSecondExit(a, b, i, j);
    if j == |b| {
      DifferenceTail(a, b, i);
    } else {
      ElemsFull(a);
    }
  }

  /**
   * The pair returned by compute_symmetric_difference_sizes: the first
   * component is |A \ B|; the second counts only the values of B \ A
   * that the loop meets before A is exhausted, i.e. those below max(A).
   */
  method SymmetricDifferenceSizes(a: seq<int>, b: seq<int>) returns (first: nat, second: nat)
    requires StrictlyIncreasing(a) && StrictlyIncreasing(b)
    ensures first == |Elems(a) - Elems(b)|
    ensures second == |BelowLast(a, b)|
  {
    first, second := 0, 0;
    var count1, count2 := |a|, |b|;
    var index1, index2 := 0, 0;
    ElemsEmptyPrefix(a);
    ElemsEmptyPrefix(b);
    while index1 < count1 && index2 < count2
      invariant SymmetricProgress(a, b, index1, index2, first, second)
      decreases count1 - index1 + count2 - index2
    {
      var value1, value2 := a[index1], b[index2];
      if value1 < value2 {
        SymmetricStepA(a, b, index1, index2, first, second);
        first := first + 1;
        index1 := index1 + 1;
      } else {
        if !(value2 < value1) {
          SymmetricStepBoth(a, b, index1, index2, first, second);
          index1 := index1 + 1;
        } else {
          SymmetricStepB(a, b, index1, index2, first, second);
          second := second + 1;
        }
        index2 := index2 + 1;
      }
    }
    SymmetricFinish(a, b, index1, index2, first, second);
    first := first + (count1 - index1);
  }

  // ---------------------------------------------------------------------
  // compute_set_intersection_size
  // ---------------------------------------------------------------------

  /** The loop invariant of SetIntersectionSize. */
  ghost predicate IntersectionProgress(a: seq<int>, b: seq<int>, i: int, j: int, r: int) {
    StrictlyIncreasing(a) && StrictlyIncreasing(b) && Frontier(a, b, i, j) &&
    r == |Elems(a[..i]) * Elems(b)|
  }

  /** Passing a value of `a` that is below the cursor of `b` finds no common value. */
  lemma IntersectionSkipA(a: seq<int>, b: seq<int>, i: int, j: int, r: int)
    requires IntersectionProgress(a, b, i, j, r) && i < |a| && j < |b| && a[i] < b[j]
    ensures IntersectionProgress(a, b, i + 1, j, r)
  {
    TakeA(a, b, i, j);
    IntersectAdd(Elems(a[..i]), Elems(b), a[i]);
  }

  /** Passing a value both sides hold finds one more common value. */
  lemma IntersectionMatch(a: seq<int>, b: seq<int>, i: int, j: int, r: int)
    requires IntersectionProgress(a, b, i, j, r) && i < |a| && j < |b| && a[i] == b[j]
    ensures IntersectionProgress(a, b, i + 1, j + 1, r + 1)
  {
    TakeBoth(a, b, i, j);
    IntersectAdd(Elems(a[..i]), Elems(b), a[i]);
  }

  /** Passing a value of `b` that is below the cursor of `a` leaves the count. */
  lemma IntersectionSkipB(a: seq<int>, b: seq<int>, i: int, j: int, r: int)
    requires IntersectionProgress(a, b, i, j, r) && i < |a| && j < |b| && b[j] < a[i]
    ensures IntersectionProgress(a, b, i, j + 1, r)
  {
    TakeB(a, b, i, j);
  }

  lemma IntersectionFinish(a: seq<int>, b: seq<int>, i: int, j: int, r: int)
    requires IntersectionProgress(a, b, i, j, r) && (i == |a| || j == |b|)
    ensures r == |Elems(a) * Elems(b)|
  {
    if j == |b| {
      IntersectionTail(a, b, i);
    } else {
      ElemsFull(a);
    }
  }

  /** One pass of the merge loop of SetIntersectionSize. */
  method IntersectionMergeStep(a: seq<int>, b: seq<int>, i0: int, j0: int, r0: int) returns (i: int, j: int, r: int)
    requires IntersectionProgress(a, b, i0, j0, r0) && i0 < |a| && j0 < |b|
    ensures IntersectionProgress(a, b, i, j, r)
    ensures i0 <= i && j0 <= j && i + j > i0 + j0
  {
    i, j, r := i0, j0, r0;
    var value1, value2 := a[i], b[j];
    if value1 < value2 {
      IntersectionSkipA(a, b, i, j, r);
      i := i + 1;
    } else {
      if !(value2 < value1) {
        IntersectionMatch(a, b, i, j, r);
        r := r + 1;
        i := i + 1;
      } else {
        IntersectionSkipB(a, b, i, j, r);
      }
      j := j + 1;
    }
  }

  /** |A ∩ B| for two sorted, duplicate-free containers. */
  method SetIntersectionSize(a: seq<int>, b: seq<int>) returns (r: nat)
    requires StrictlyIncreasing(a) && StrictlyIncreasing(b)
    ensures r == |Elems(a) * Elems(b)|
  {
    var ret := 0;
    var count1, count2 := |a|, |b|;
    var index1, index2 := 0, 0;
    ElemsEmptyPrefix(a);
    while index1 < count1 && index2 < count2
      invariant IntersectionProgress(a, b, index1, index2, ret)
      decreases count1 - index1 + count2 - index2
    {
      index1, index2, ret := IntersectionMergeStep(a, b, index1, index2, ret);
    }
    IntersectionFinish(a, b, index1, index2, ret);
    r := ret;
  }

  // ---------------------------------------------------------------------
  // has_non_empty_set_difference and has_non_empty_set_intersection
  // ---------------------------------------------------------------------

  /** True exactly when A is not a subset of B. */
  method HasNonEmptySetDifference(a: seq<int>, b: seq<int>) returns (r: bool)
    requires StrictlyIncreasing(a) && StrictlyIncreasing(b)
    ensures r <==> !(Elems(a) <= Elems(b))
  {
    var ret := false;
    var count1, count2 := |a|, |b|;
    var index1, index2 := 0, 0;
    ElemsEmptyPrefix(a);
    while index1 < count1 && index2 < count2 && !ret
      invariant Frontier(a, b, index1, index2)
      invariant ret ==> !(Elems(a) <= Elems(b))
      invariant !ret ==> Elems(a[..index1]) <= Elems(b)
      decreases count1 - index1 + count2 - index2
    {
      var value1, value2 := a[index1], b[index2];
      if value1 < value2 {
        TakeA(a, b, index1, index2);
        assert a[index1] in Elems(a);
        ret := true;
        index1 := index1 + 1;
      } else {
        if !(value2 < value1) {
          TakeBoth(a, b, index1, index2);
          index1 := index1 + 1;
        }
        index2 := index2 + 1;
      }
    }
    if !ret {
      if index1 < count1 {
        // b ran out first: a[index1] lies above every value of b
        NotInSorted(b, a[index1], index2);
        assert a[index1] in Elems(a);
      } else {
        ElemsFull(a);
      }
    }
    r := ret || index1 < count1;
  }

  /**
   * The walk of has_non_empty_set_intersection on arbitrary sequences:
   * advance past the smaller front value until the fronts agree or one
   * sequence runs out. The labelling pass applies the helper to endpoint
   * sequences that need not be sorted, so its answer there is this walk.
   */
  function MergeMeets(a: seq<int>, b: seq<int>): bool
    decreases |a| + |b|
  {
    if |a| == 0 || |b| == 0 then false
    else if a[0] < b[0] then MergeMeets(a[1..], b)
    else if b[0] < a[0] then MergeMeets(a, b[1..])
    else true
  }

  /** A `true` walk always stops at a shared value. */
  lemma {:induction false} MergeMeetsSound(a: seq<int>, b: seq<int>)
    ensures MergeMeets(a, b) ==> Elems(a) * Elems(b) != {}
    decreases |a| + |b|
  {
    if |a| > 0 && |b| > 0 {
      if a[0] < b[0] {
        MergeMeetsSound(a[1..], b);
        ConsElems(a);
      } else if b[0] < a[0] {
        MergeMeetsSound(a, b[1..]);
        ConsElems(b);
      } else {
        assert a[0] in Elems(a) * Elems(b);
      }
    }
  }

  /** On sorted inputs the walk finds every shared value. */
  lemma {:induction false} MergeMeetsComplete(a: seq<int>, b: seq<int>)
    requires StrictlyIncreasing(a) && StrictlyIncreasing(b)
    ensures !MergeMeets(a, b) ==> Elems(a) * Elems(b) == {}
    decreases |a| + |b|
  {
    if |a| == 0 || |b| == 0 {
      ElemsEmpty(a);
      ElemsEmpty(b);
    } else if a[0] < b[0] {
      ConsElems(a);
      NotInSorted(b, a[0], 0);
      SubsequenceIncreasing(a, 1, |a|);
      MergeMeetsComplete(a[1..], b);
    } else if b[0] < a[0] {
      ConsElems(b);
      NotInSorted(a, b[0], 0);
      SubsequenceIncreasing(b, 1, |b|);
      MergeMeetsComplete(a, b[1..]);
    }
  }

  /**
   * has_non_empty_set_intersection. It walks the two containers as
   * `MergeMeets` does; a `true` answer always names a shared value, and
   * on sorted inputs the answer is exact.
   */
  method HasNonEmptySetIntersection(a: seq<int>, b: seq<int>) returns (r: bool)
    ensures r == MergeMeets(a, b)
    ensures r ==> Elems(a) * Elems(b) != {}
    ensures StrictlyIncreasing(a) && StrictlyIncreasing(b) ==> (r <==> Elems(a) * Elems(b) != {})
  {
    var ret := false;
    var count1, count2 := |a|, |b|;
    var index1, index2 := 0, 0;
    while index1 < count1 && index2 < count2 && !ret
      invariant 0 <= index1 <= count1 && 0 <= index2 <= count2
      invariant ret ==> MergeMeets(a, b)
      invariant !ret ==> MergeMeets(a, b) == MergeMeets(a[index1..], b[index2..])
      decreases count1 - index1 + count2 - index2
    {
      var value1, value2 := a[index1], b[index2];
      assert a[index1..][0] == value1 && b[index2..][0] == value2;
      if value1 < value2 {
        assert a[index1..][1..] == a[index1 + 1..];
        index1 := index1 + 1;
      } else {
        if !(value2 < value1) {
          ret := true;
          index1 := index1 + 1;
        } else {
          assert b[index2..][1..] == b[index2 + 1..];
        }
        index2 := index2 + 1;
      }
    }
    r := ret;
    MergeMeetsSound(a, b);
    if StrictlyIncreasing(a) && StrictlyIncreasing(b) {
      MergeMeetsComplete(a, b);
    }
  }
}
