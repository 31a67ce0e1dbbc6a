/**
 * The filtered union helpers of htd (include/htd/Helpers.hpp):
 * compute_filtered_set_union_size and filtered_set_union, which walk two
 * sorted vertex containers A and B together with a sorted filter F and
 * count or emit (A ∪ B) \ F, and inplace_set_union.
 *
 * Both filtered helpers keep two filter cursors, one trailing each input
 * cursor; `FilterBelow` says that every filter value a cursor has passed
 * lies below the input value it trails.
 */
module FilteredUnion {
  import opened SortedSets
  import opened Outcomes
  import opened Helpers

  /** Every filter value before position `t` lies below `s[i]` (when `s[i]` exists). */
  ghost predicate FilterBelow(f: seq<int>, t: int, s: seq<int>, i: int) {
    0 <= t <= |f| && (0 <= i < |s| ==> forall k :: 0 <= k < t ==> f[k] < s[i])
  }

  /** Once a filter cursor has caught up with `x`, `x` is filtered iff the cursor points at it. */
  lemma FilterMember(f: seq<int>, t: int, x: int)
    requires StrictlyIncreasing(f) && 0 <= t <= |f|
    requires forall k :: 0 <= k < t ==> f[k] < x
    requires t < |f| ==> x <= f[t]
    ensures x in Elems(f) <==> t < |f| && x == f[t]
  {
    if !(t < |f| && x == f[t]) {
      NotInSorted(f, x, t);
    }
  }

  /** The filter values a cursor has passed cannot remove anything from the rest of `s`. */
  lemma SuffixFilter(s: seq<int>, i: int, f: seq<int>, t: int)
    requires StrictlyIncreasing(s) && StrictlyIncreasing(f) && 0 <= i < |s|
    requires FilterBelow(f, t, s, i)
    ensures Elems(s[i..]) - Elems(f) == Elems(s[i..]) - Elems(f[t..])
  {
    ElemsSplit(f, t);
    SuffixAbove(s, i);
    forall x | x in Elems(s[i..])
      ensures x !in Elems(f[..t])
    {
    }
  }

  lemma UnionMinusCard(X: set<int>, S: set<int>, F: set<int>)
    requires X !! S
    ensures |(X + S) - F| == |X - F| + |S - F|
  {
    assert (X + S) - F == (X - F) + (S - F);
    DisjointUnionCard(X - F, S - F);
  }

  // ---------------------------------------------------------------------
  // compute_filtered_set_union_size
  // ---------------------------------------------------------------------

  /** The invariant of the main loop of compute_filtered_set_union_size. */
  ghost predicate SizeProgress(a: seq<int>, b: seq<int>, f: seq<int>, i: int, j: int, t1: int, t2: int, r: int) {
    StrictlyIncreasing(a) && StrictlyIncreasing(b) && StrictlyIncreasing(f) &&
    Frontier(a, b, i, j) && FilterBelow(f, t1, a, i) && FilterBelow(f, t2, b, j) &&
    r == |(Elems(a[..i]) + Elems(b[..j])) - Elems(f)|
  }

  /**
   * One of the inner loops of the filtered helpers: moves a filter cursor
   * past every filter value below `x`.
   */
  method SkipBelow(f: seq<int>, t0: int, x: int) returns (t: int)
    requires 0 <= t0 <= |f|
    ensures t0 <= t <= |f|
    ensures forall k :: t0 <= k < t ==> f[k] < x
    ensures t < |f| ==> x <= f[t]
  {
    t := t0;
    while t < |f| && f[t] < x
      invariant t0 <= t <= |f|
      invariant forall k :: t0 <= k < t ==> f[k] < x
      decreases |f| - t
    {
      t := t + 1;
    }
  }

  /** Advancing a filter cursor past values below the input value keeps `FilterBelow`. */
  lemma FilterBelowSkip(f: seq<int>, t: int, t': int, s: seq<int>, i: int)
    requires FilterBelow(f, t, s, i) && 0 <= i < |s| && t <= t' <= |f|
    requires forall k :: t <= k < t' ==> f[k] < s[i]
    ensures FilterBelow(f, t', s, i)
  {
  }

  /** Moving an input cursor forward keeps `FilterBelow`. */
  lemma FilterBelowNext(f: seq<int>, t: int, s: seq<int>, i: int)
    requires StrictlyIncreasing(s) && FilterBelow(f, t, s, i) && 0 <= i < |s|
    ensures FilterBelow(f, t, s, i + 1)
  {
    if i + 1 < |s| {
      assert s[i] < s[i + 1];
    }
  }

  lemma SizeSkip(a: seq<int>, b: seq<int>, f: seq<int>, i: int, j: int, t1: int, t2: int, t1': int, t2': int, r: int)
    requires SizeProgress(a, b, f, i, j, t1, t2, r) && i < |a| && j < |b|
    requires t1 <= t1' <= |f| && forall k :: t1 <= k < t1' ==> f[k] < a[i]
    requires t2 <= t2' <= |f| && forall k :: t2 <= k < t2' ==> f[k] < b[j]
    ensures SizeProgress(a, b, f, i, j, t1', t2', r)
  {
    FilterBelowSkip(f, t1, t1', a, i);
    FilterBelowSkip(f, t2, t2', b, j);
  }

  /** Whether `x`, reached by a filter cursor at `t`, survives the filter (the source's test). */
  function Survives(f: seq<int>, t: int, x: int): bool
    requires 0 <= t <= |f|
  {
    t == |f| || x < f[t]
  }

  /** The count after adding a value `x` fresh to the merged prefix. */
  lemma CountFresh(P: set<int>, Q: set<int>, P': set<int>, Q': set<int>, F: set<int>, x: int, r: int)
    requires r == |(P + Q) - F| && x !in P && x !in Q
    requires P' + Q' == (P + Q) + {x}
    ensures |(P' + Q') - F| == r + if x in F then 0 else 1
  {
    FilteredAddFresh(P + Q, F, x);
  }

  lemma SizeStepB(a: seq<int>, b: seq<int>, f: seq<int>, i: int, j: int, t1: int, t2: int, r: int)
    requires SizeProgress(a, b, f, i, j, t1, t2, r) && i < |a| && j < |b| && b[j] < a[i]
    requires t2 < |f| ==> b[j] <= f[t2]
    ensures SizeProgress(a, b, f, i, j + 1, t1, t2, r + if Survives(f, t2, b[j]) then 1 else 0)
  {
    TakeB(a, b, i, j);
    FilterMember(f, t2, b[j]);
    FilterBelowNext(f, t2, b, j);
    CountFresh(Elems(a[..i]), Elems(b[..j]), Elems(a[..i]), Elems(b[..j + 1]), Elems(f), b[j], r);
  }

  lemma SizeStepA(a: seq<int>, b: seq<int>, f: seq<int>, i: int, j: int, t1: int, t2: int, r: int)
    requires SizeProgress(a, b, f, i, j, t1, t2, r) && i < |a| && j < |b| && a[i] < b[j]
    requires t1 < |f| ==> a[i] <= f[t1]
    ensures SizeProgress(a, b, f, i + 1, j, t1, t2, r + if Survives(f, t1, a[i]) then 1 else 0)
  {
    TakeA(a, b, i, j);
    FilterMember(f, t1, a[i]);
    FilterBelowNext(f, t1, a, i);
    CountFresh(Elems(a[..i]), Elems(b[..j]), Elems(a[..i + 1]), Elems(b[..j]), Elems(f), a[i], r);
  }

  lemma SizeStepBoth(a: seq<int>, b: seq<int>, f: seq<int>, i: int, j: int, t1: int, t2: int, r: int)
    requires SizeProgress(a, b, f, i, j, t1, t2, r) && i < |a| && j < |b| && a[i] == b[j]
    requires t1 < |f| ==> a[i] <= f[t1]
    ensures SizeProgress(a, b, f, i + 1, j + 1, t1, t2, r + if Survives(f, t1, a[i]) then 1 else 0)
  {
    TakeBoth(a, b, i, j);
    FilterMember(f, t1, a[i]);
    FilterBelowNext(f, t1, a, i);
    FilterBelowNext(f, t2, b, j);
    CountFresh(Elems(a[..i]), Elems(b[..j]), Elems(a[..i + 1]), Elems(b[..j + 1]), Elems(f), a[i], r);
  }

  /** The rest of `a`, once `b` is exhausted, counts as the rest of `a` minus the rest of the filter. */
  lemma RestCount(a: seq<int>, b: seq<int>, f: seq<int>, i: int, t: int)
    requires StrictlyIncreasing(a) && StrictlyIncreasing(b) && StrictlyIncreasing(f)
    requires Frontier(a, b, i, |b|) && FilterBelow(f, t, a, i) && i < |a|
    ensures |(Elems(a) + Elems(b)) - Elems(f)|
         == |(Elems(a[..i]) + Elems(b)) - Elems(f)| + |Elems(a[i..]) - Elems(f[t..])|
  {
    RestFresh(a, b, i);
    SuffixFilter(a, i, f, t);
    var P, S := Elems(a[..i]), Elems(a[i..]);
    assert Elems(a) + Elems(b) == (P + Elems(b)) + S;
    UnionMinusCard(P + Elems(b), S, Elems(f));
  }

  lemma SizeFinishA(a: seq<int>, b: seq<int>, f: seq<int>, i: int, t1: int, t2: int, r: int)
    requires SizeProgress(a, b, f, i, |b|, t1, t2, r) && i < |a|
    ensures r + |Elems(a[i..]) - Elems(f[t1..])| == |(Elems(a) + Elems(b)) - Elems(f)|
  {
    ElemsFull(b);
    RestCount(a, b, f, i, t1);
  }

  lemma SizeFinishB(a: seq<int>, b: seq<int>, f: seq<int>, j: int, t1: int, t2: int, r: int)
    requires SizeProgress(a, b, f, |a|, j, t1, t2, r) && j < |b|
    ensures r + |Elems(b[j..]) - Elems(f[t2..])| == |(Elems(a) + Elems(b)) - Elems(f)|
  {
    ElemsFull(a);
    FrontierSwap(a, b, |a|, j);
    RestCount(b, a, f, j, t2);
    assert Elems(b[..j]) + Elems(a) == Elems(a) + Elems(b[..j]);
    assert Elems(b) + Elems(a) == Elems(a) + Elems(b);
  }

  lemma SizeFinishBoth(a: seq<int>, b: seq<int>, f: seq<int>, t1: int, t2: int, r: int)
    requires SizeProgress(a, b, f, |a|, |b|, t1, t2, r)
    ensures r == |(Elems(a) + Elems(b)) - Elems(f)|
  {
    ElemsFull(a);
    ElemsFull(b);
  }

  /** The tail of the filtered helpers: the rest of `s` minus the rest of the filter. */
  method RestDifferenceSize(s: seq<int>, i: int, f: seq<int>, t: int) returns (n: nat)
    requires StrictlyIncreasing(s) && StrictlyIncreasing(f) && 0 <= i <= |s| && 0 <= t <= |f|
    ensures n == |Elems(s[i..]) - Elems(f[t..])|
  {
    SubsequenceIncreasing(s, i, |s|);
    SubsequenceIncreasing(f, t, |f|);
    n := SetDifferenceSize(s[i..], f[t..]);
  }

  /**
   * One iteration of the main loop of compute_filtered_set_union_size:
   * both filter cursors catch up with their input values, then the smaller
   * input value (both, when equal) is counted unless the filter holds it.
   */
  method SizeMergeStep(a: seq<int>, b: seq<int>, f: seq<int>, i0: int, j0: int, t10: int, t20: int, r0: nat)
    returns (i: int, j: int, t1: int, t2: int, r: nat)
    requires SizeProgress(a, b, f, i0, j0, t10, t20, r0) && i0 < |a| && j0 < |b|
    ensures SizeProgress(a, b, f, i, j, t1, t2, r)
    ensures i0 <= i && j0 <= j && i + j > i0 + j0
  {
    i, j, r := i0, j0, r0;
    var value1, value2 := a[i], b[j];
    t1 := SkipBelow(f, t10, value1);
    t2 := SkipBelow(f, t20, value2);
    SizeSkip(a, b, f, i, j, t10, t20, t1, t2, r);
    if value2 < value1 {
      SizeStepB(a, b, f, i, j, t1, t2, r);
      if t2 == |f| || value2 < f[t2] {
        r := r + 1;
      }
      j := j + 1;
    } else {
      if value1 < value2 {
        SizeStepA(a, b, f, i, j, t1, t2, r);
      } else {
        SizeStepBoth(a, b, f, i, j, t1, t2, r);
      }
      if t1 == |f| || value1 < f[t1] {
        r := r + 1;
      }
      if !(value1 < value2) {
        j := j + 1;
      }
      i := i + 1;
    }
  }

  /**
   * The main loop of compute_filtered_set_union_size together with its
   * tail: from any state satisfying the loop invariant it returns
   * |(A ∪ B) \ F|.
   */
  method FinishFilteredSize(a: seq<int>, b: seq<int>, f: seq<int>, i0: int, j0: int, t10: int, t20: int, r0: nat)
    returns (r: nat)
    requires SizeProgress(a, b, f, i0, j0, t10, t20, r0)
    ensures r == |(Elems(a) + Elems(b)) - Elems(f)|
  {
    var i, j, t1, t2 := i0, j0, t10, t20;
    r := r0;
    while i < |a| && j < |b|
      invariant SizeProgress(a, b, f, i, j, t1, t2, r)
      decreases |a| - i + |b| - j
    {
      i, j, t1, t2, r := SizeMergeStep(a, b, f, i, j, t1, t2, r);
    }
    r := FinishSizeTail(a, b, f, i, j, t1, t2, r);
  }

  /** The tail of compute_filtered_set_union_size: the rest of whichever input is left, minus the filter. */
  method FinishSizeTail(a: seq<int>, b: seq<int>, f: seq<int>, i: int, j: int, t1: int, t2: int, r0: nat)
    returns (r: nat)
    requires SizeProgress(a, b, f, i, j, t1, t2, r0) && !(i < |a| && j < |b|)
    ensures r == |(Elems(a) + Elems(b)) - Elems(f)|
  {
    r := r0;
    if i < |a| {
      SizeFinishA(a, b, f, i, t1, t2, r);
      var rest := RestDifferenceSize(a, i, f, t1);
      r := r + rest;
    } else if j < |b| {
      SizeFinishB(a, b, f, j, t1, t2, r);
      var rest := RestDifferenceSize(b, j, f, t2);
      r := r + rest;
    } else {
      SizeFinishBoth(a, b, f, t1, t2, r);
    }
  }

  lemma EmptyFilter(a: seq<int>, b: seq<int>, f: seq<int>)
    requires |f| == 0
    ensures (Elems(a) + Elems(b)) - Elems(f) == Elems(a) + Elems(b)
  {
    ElemsEmpty(f);
  }

  /**
   * The inputs on which the first loop of compute_filtered_set_union_size
   * reads past an end: with a non-empty filter, it reads the first value of
   * B as soon as A is non-empty, and it reads the filter past its last value
   * when some value of A below the first value of B exceeds every filter value.
   */
  ghost predicate ReadsPastEnd(a: seq<int>, b: seq<int>, f: seq<int>) {
    |f| > 0 && |a| > 0 &&
    (|b| == 0 || exists k :: 0 <= k < |a| && a[k] < b[0] && f[|f| - 1] < a[k])
  }

  /** The invariant of the first loop: a difference merge of A's values below B's first value against F. */
  ghost predicate LeadProgress(a: seq<int>, b: seq<int>, f: seq<int>, i: int, t: int, r: int) {
    DifferenceProgress(a, f, i, t, r) && StrictlyIncreasing(b) &&
    (i > 0 ==> |b| > 0 && a[i - 1] < b[0]) &&
    (t > 0 ==> |b| > 0 && f[t - 1] < b[0])
  }

  lemma LeadStep(a: seq<int>, b: seq<int>, f: seq<int>, i: int, t: int, r: int)
    requires LeadProgress(a, b, f, i, t, r) && i < |a| && t < |f| && |b| > 0 && a[i] < b[0]
    ensures a[i] < f[t] ==> LeadProgress(a, b, f, i + 1, t, r + 1)
    ensures a[i] == f[t] ==> LeadProgress(a, b, f, i + 1, t + 1, r)
    ensures f[t] < a[i] ==> LeadProgress(a, b, f, i, t + 1, r)
  {
    if a[i] < f[t] {
      DifferenceSkipA(a, f, i, t, r);
    } else if a[i] == f[t] {
      DifferenceMatch(a, f, i, t, r);
    } else {
      DifferenceSkipB(a, f, i, t, r);
    }
  }

  /** In a strictly increasing sequence, a bound on `s[n - 1]` bounds the whole prefix `s[..n]`. */
  lemma PrefixBelow(s: seq<int>, n: int, x: int)
    requires StrictlyIncreasing(s) && 0 < n <= |s| && s[n - 1] < x
    ensures forall k :: 0 <= k < n ==> s[k] < x
  {
    forall k | 0 <= k < n
      ensures s[k] < x
    {
      assert s[k] <= s[n - 1];
    }
  }

  /** Leaving the first loop establishes the invariant of the main loop. */
  lemma LeadHandOver(a: seq<int>, b: seq<int>, f: seq<int>, i: int, t: int, r: int)
    requires LeadProgress(a, b, f, i, t, r)
    ensures SizeProgress(a, b, f, i, 0, t, t, r)
  {
    ElemsEmptyPrefix(b);
    assert Elems(a[..i]) + Elems(b[..0]) == Elems(a[..i]);
    if i > 0 {
      PrefixBelow(a, i, b[0]);
    }
    if t > 0 {
      PrefixBelow(f, t, b[0]);
    }
  }

  /** Every value of A that the first loop consumed lies at or below the last filter value. */
  ghost predicate ConsumedCovered(a: seq<int>, f: seq<int>, i: int) {
    |f| > 0 && 0 <= i <= |a| && forall k :: 0 <= k < i ==> a[k] <= f[|f| - 1]
  }

  lemma CoveredStep(a: seq<int>, f: seq<int>, i: int, t: int)
    requires StrictlyIncreasing(f) && ConsumedCovered(a, f, i) && i < |a| && 0 <= t < |f|
    ensures a[i] <= f[t] ==> ConsumedCovered(a, f, i + 1)
  {
    assert f[t] <= f[|f| - 1];
  }

  lemma ReadsEmptySecond(a: seq<int>, b: seq<int>, f: seq<int>)
    requires |f| > 0 && |a| > 0 && |b| == 0
    ensures ReadsPastEnd(a, b, f)
  {
  }

  lemma ReadsFilterEnd(a: seq<int>, b: seq<int>, f: seq<int>, i: int, r: int)
    requires LeadProgress(a, b, f, i, |f|, r) && |f| > 0 && i < |a| && |b| > 0 && a[i] < b[0]
    ensures ReadsPastEnd(a, b, f)
  {
    assert f[|f| - 1] < a[i];
  }

  /** Leaving the first loop normally means no read went past an end. */
  lemma LeadExit(a: seq<int>, b: seq<int>, f: seq<int>, i: int, t: int, r: int)
    requires LeadProgress(a, b, f, i, t, r) && ConsumedCovered(a, f, i)
    requires !(i < |a| && (|b| == 0 || a[i] < b[0]))
    ensures !ReadsPastEnd(a, b, f)
    ensures SizeProgress(a, b, f, i, 0, t, t, r)
  {
    LeadHandOver(a, b, f, i, t, r);
    LeadExitSafe(a, b, f, i);
  }

  lemma LeadExitSafe(a: seq<int>, b: seq<int>, f: seq<int>, i: int)
    requires StrictlyIncreasing(a) && ConsumedCovered(a, f, i)
    requires |a| > 0 ==> |b| > 0
    requires i < |a| ==> b[0] <= a[i]
    ensures !ReadsPastEnd(a, b, f)
  {
    if |a| > 0 {
      forall k | 0 <= k < |a| && a[k] < b[0]
        ensures a[k] <= f[|f| - 1]
      {
      }
    }
  }

  /**
   * compute_filtered_set_union_size as written. With an empty filter it
   * is the plain union size. Otherwise its first loop reads the first
   * value of B and the current filter value without checking that they
   * exist; `None` stands for such a read past an end, which happens
   * exactly on the inputs `ReadsPastEnd` describes. On every other input
   * the result is |(A ∪ B) \ F|.
   */
  method FilteredSetUnionSize(a: seq<int>, b: seq<int>, f: seq<int>) returns (r: Option<nat>)
    requires StrictlyIncreasing(a) && StrictlyIncreasing(b) && StrictlyIncreasing(f)
    ensures |f| == 0 ==> r == Some(|Elems(a) + Elems(b)|)
    ensures r.None? <==> ReadsPastEnd(a, b, f)
    ensures r.Some? ==> r.value == |(Elems(a) + Elems(b)) - Elems(f)|
  {
    if |f| == 0 {
      var n := SetUnionSize(a, b);
      EmptyFilter(a, b, f);
      return Some(n);
    }
    var i, t, count := 0, 0, 0;
    ElemsEmptyPrefix(a);
    // the source evaluates `*firstSet2` in the loop condition whether or not set 2 is empty
    while i < |a| && (|b| == 0 || a[i] < b[0])
      invariant LeadProgress(a, b, f, i, t, count)
      invariant ConsumedCovered(a, f, i)
      decreases |a| - i + |f| - t
    {
      if |b| == 0 {
        ReadsEmptySecond(a, b, f);
        return None;
      }
      if t == |f| {
        // the comparison reads the filter past its last value
        ReadsFilterEnd(a, b, f, i, count);
        return None;
      }
      CoveredStep(a, f, i, t);
      LeadStep(a, b, f, i, t, count);
      if a[i] < f[t] {
        count := count + 1;
        i := i + 1;
      } else {
        if !(f[t] < a[i]) {
          i := i + 1;
        }
        t := t + 1;
      }
    }
    LeadExit(a, b, f, i, t, count);
    var n := FinishFilteredSize(a, b, f, i, 0, t, t, count);
    return Some(n);
  }

  /** Two of the inputs that make compute_filtered_set_union_size read past an end. */
  lemma ReadsPastEndExamples()
    ensures ReadsPastEnd([5], [10], [1])
    ensures ReadsPastEnd([5], [], [1])
  {
    assert [5][0] < [10][0] && [1][0] < [5][0];
  }

  /**
   * compute_filtered_set_union_size with the end checks its first loop
   * lacks: it stops when B or the filter is exhausted. It returns
   * |(A ∪ B) \ F| on every input.
   */
  method FilteredSetUnionSizeGuarded(a: seq<int>, b: seq<int>, f: seq<int>) returns (r: nat)
    requires StrictlyIncreasing(a) && StrictlyIncreasing(b) && StrictlyIncreasing(f)
    ensures r == |(Elems(a) + Elems(b)) - Elems(f)|
  {
    if |f| == 0 {
      r := SetUnionSize(a, b);
      EmptyFilter(a, b, f);
      return;
    }
    var i, t, count := LeadGuarded(a, b, f);
    LeadHandOver(a, b, f, i, t, count);
    r := FinishFilteredSize(a, b, f, i, 0, t, t, count);
  }

  /**
   * The first loop of compute_filtered_set_union_size with the missing
   * end checks added: it stops when B is empty or the filter is used up.
   */
  method LeadGuarded(a: seq<int>, b: seq<int>, f: seq<int>) returns (i: int, t: int, count: nat)
    requires StrictlyIncreasing(a) && StrictlyIncreasing(b) && StrictlyIncreasing(f)
    ensures LeadProgress(a, b, f, i, t, count)
  {
    i, t, count := 0, 0, 0;
    ElemsEmptyPrefix(a);
    while i < |a| && |b| > 0 && t < |f| && a[i] < b[0]
      invariant LeadProgress(a, b, f, i, t, count)
      decreases |a| - i + |f| - t
    {
      LeadStep(a, b, f, i, t, count);
      if a[i] < f[t] {
        count := count + 1;
        i := i + 1;
      } else {
        if !(f[t] < a[i]) {
          i := i + 1;
        }
        t := t + 1;
      }
    }
  }

  // ---------------------------------------------------------------------
  // filtered_set_union
  // ---------------------------------------------------------------------

  /** The invariant of the loop of filtered_set_union: `out` is the filtered union of the merged prefixes. */
  ghost predicate OutProgress(a: seq<int>, b: seq<int>, f: seq<int>, i: int, j: int, t1: int, t2: int, out: seq<int>) {
    StrictlyIncreasing(a) && StrictlyIncreasing(b) && StrictlyIncreasing(f) &&
    Frontier(a, b, i, j) && FilterBelow(f, t1, a, i) && FilterBelow(f, t2, b, j) &&
    StrictlyIncreasing(out) && Elems(out) == (Elems(a[..i]) + Elems(b[..j])) - Elems(f) &&
    BelowCursors(out, a, b, i, j)
  }

  lemma OutSkip(a: seq<int>, b: seq<int>, f: seq<int>, i: int, j: int, t1: int, t2: int, t1': int, t2': int, out: seq<int>)
    requires OutProgress(a, b, f, i, j, t1, t2, out) && i < |a| && j < |b|
    requires t1 <= t1' <= |f| && forall k :: t1 <= k < t1' ==> f[k] < a[i]
    requires t2 <= t2' <= |f| && forall k :: t2 <= k < t2' ==> f[k] < b[j]
    ensures OutProgress(a, b, f, i, j, t1', t2', out)
  {
    FilterBelowSkip(f, t1, t1', a, i);
    FilterBelowSkip(f, t2, t2', b, j);
  }

  /** The filtered union after adding a value `x` fresh to the merged prefix. */
  lemma FilteredAdd(P: set<int>, Q: set<int>, P': set<int>, Q': set<int>, F: set<int>, x: int, E: set<int>)
    requires E == (P + Q) - F && P' + Q' == (P + Q) + {x}
    ensures (P' + Q') - F == if x in F then E else E + {x}
  {
  }

  /** Emitting `x` (or not) keeps the output sorted and below both cursors. */
  lemma Emit(out: seq<int>, x: int, emit: bool, E: set<int>, a: seq<int>, b: seq<int>, i: int, j: int)
    requires StrictlyIncreasing(out) && (|out| > 0 ==> out[|out| - 1] < x)
    requires (0 <= i < |a| ==> x < a[i]) && (0 <= j < |b| ==> x < b[j])
    requires E == if emit then Elems(out) + {x} else Elems(out)
    ensures StrictlyIncreasing(if emit then out + [x] else out)
    ensures BelowCursors(if emit then out + [x] else out, a, b, i, j)
    ensures Elems(if emit then out + [x] else out) == E
  {
    if emit {
      AppendBelow(out, x);
      ElemsConcat(out, [x]);
    }
  }

  lemma OutStepB(a: seq<int>, b: seq<int>, f: seq<int>, i: int, j: int, t1: int, t2: int, out: seq<int>)
    requires OutProgress(a, b, f, i, j, t1, t2, out) && i < |a| && j < |b| && b[j] < a[i]
    requires t2 < |f| ==> b[j] <= f[t2]
    ensures OutProgress(a, b, f, i, j + 1, t1, t2, if Survives(f, t2, b[j]) then out + [b[j]] else out)
  {
    if j + 1 < |b| {
      assert b[j] < b[j + 1];
    }
    TakeB(a, b, i, j);
    FilterMember(f, t2, b[j]);
    FilterBelowNext(f, t2, b, j);
    FilteredAdd(Elems(a[..i]), Elems(b[..j]), Elems(a[..i]), Elems(b[..j + 1]), Elems(f), b[j], Elems(out));
    Emit(out, b[j], Survives(f, t2, b[j]), (Elems(a[..i]) + Elems(b[..j + 1])) - Elems(f), a, b, i, j + 1);
  }

  lemma OutStepA(a: seq<int>, b: seq<int>, f: seq<int>, i: int, j: int, t1: int, t2: int, out: seq<int>)
    requires OutProgress(a, b, f, i, j, t1, t2, out) && i < |a| && j < |b| && a[i] < b[j]
    requires t1 < |f| ==> a[i] <= f[t1]
    ensures OutProgress(a, b, f, i + 1, j, t1, t2, if Survives(f, t1, a[i]) then out + [a[i]] else out)
  {
    if i + 1 < |a| {
      assert a[i] < a[i + 1];
    }
    TakeA(a, b, i, j);
    FilterMember(f, t1, a[i]);
    FilterBelowNext(f, t1, a, i);
    FilteredAdd(Elems(a[..i]), Elems(b[..j]), Elems(a[..i + 1]), Elems(b[..j]), Elems(f), a[i], Elems(out));
    Emit(out, a[i], Survives(f, t1, a[i]), (Elems(a[..i + 1]) + Elems(b[..j])) - Elems(f), a, b, i + 1, j);
  }

  lemma OutStepBoth(a: seq<int>, b: seq<int>, f: seq<int>, i: int, j: int, t1: int, t2: int, out: seq<int>)
    requires OutProgress(a, b, f, i, j, t1, t2, out) && i < |a| && j < |b| && a[i] == b[j]
    requires t1 < |f| ==> a[i] <= f[t1]
    ensures OutProgress(a, b, f, i + 1, j + 1, t1, t2, if Survives(f, t1, a[i]) then out + [a[i]] else out)
  {
    BothCursors(a, b, f, i, j, t1, t2);
    BothEmit(a, b, f, i, j, t1, out);
  }

  /** Taking a common value moves both input cursors and keeps the filter cursors behind them. */
  lemma BothCursors(a: seq<int>, b: seq<int>, f: seq<int>, i: int, j: int, t1: int, t2: int)
    requires StrictlyIncreasing(a) && StrictlyIncreasing(b)
    requires Frontier(a, b, i, j) && FilterBelow(f, t1, a, i) && FilterBelow(f, t2, b, j)
    requires i < |a| && j < |b| && a[i] == b[j]
    ensures Frontier(a, b, i + 1, j + 1) && FilterBelow(f, t1, a, i + 1) && FilterBelow(f, t2, b, j + 1)
  {
    TakeBoth(a, b, i, j);
    FilterBelowNext(f, t1, a, i);
    FilterBelowNext(f, t2, b, j);
  }

  /** Taking a common value emits it once, when it survives the filter. */
  lemma BothEmit(a: seq<int>, b: seq<int>, f: seq<int>, i: int, j: int, t1: int, out: seq<int>)
    requires StrictlyIncreasing(a) && StrictlyIncreasing(b) && StrictlyIncreasing(f)
    requires Frontier(a, b, i, j) && FilterBelow(f, t1, a, i)
    requires StrictlyIncreasing(out) && Elems(out) == (Elems(a[..i]) + Elems(b[..j])) - Elems(f)
    requires BelowCursors(out, a, b, i, j)
    requires i < |a| && j < |b| && a[i] == b[j]
    requires t1 < |f| ==> a[i] <= f[t1]
    ensures var out' := if Survives(f, t1, a[i]) then out + [a[i]] else out;
      StrictlyIncreasing(out') && Elems(out') == (Elems(a[..i + 1]) + Elems(b[..j + 1])) - Elems(f) &&
      BelowCursors(out', a, b, i + 1, j + 1)
  {
    if i + 1 < |a| {
      assert a[i] < a[i + 1];
    }
    if j + 1 < |b| {
      assert b[j] < b[j + 1];
    }
    TakeBoth(a, b, i, j);
    FilterMember(f, t1, a[i]);
    FilteredAdd(Elems(a[..i]), Elems(b[..j]), Elems(a[..i + 1]), Elems(b[..j + 1]), Elems(f), a[i], Elems(out));
    Emit(out, a[i], Survives(f, t1, a[i]), (Elems(a[..i + 1]) + Elems(b[..j + 1])) - Elems(f), a, b, i + 1, j + 1);
  }

  /** Values drawn from the rest of `a` follow an output that lies below `a[i]`. */
  lemma OutBelowRest(a: seq<int>, i: int, out: seq<int>, d: seq<int>)
    requires StrictlyIncreasing(a) && 0 <= i < |a| && StrictlyIncreasing(out) && StrictlyIncreasing(d)
    requires |out| > 0 ==> out[|out| - 1] < a[i]
    requires Elems(d) <= Elems(a[i..])
    ensures StrictlyIncreasing(out + d)
  {
    SuffixAbove(a, i);
    forall k, m | 0 <= k < |out| && 0 <= m < |d|
      ensures out[k] < d[m]
    {
      assert d[m] in Elems(d);
      assert out[k] <= out[|out| - 1];
    }
    AppendIncreasing(out, d);
  }

  /** The filtered rest of `a` completes the filtered union. */
  lemma OutRestElems(a: seq<int>, b: seq<int>, f: seq<int>, i: int, t: int, E: set<int>, D: set<int>)
    requires StrictlyIncreasing(a) && StrictlyIncreasing(b) && StrictlyIncreasing(f)
    requires Frontier(a, b, i, |b|) && FilterBelow(f, t, a, i) && i < |a|
    requires E == (Elems(a[..i]) + Elems(b)) - Elems(f)
    requires D == Elems(a[i..]) - Elems(f[t..])
    ensures E + D == (Elems(a) + Elems(b)) - Elems(f)
  {
    RestFresh(a, b, i);
    SuffixFilter(a, i, f, t);
  }

  /** The rest of `a`, once `b` is exhausted: its filtered values follow the output. */
  lemma OutRest(a: seq<int>, b: seq<int>, f: seq<int>, i: int, t: int, out: seq<int>, d: seq<int>)
    requires StrictlyIncreasing(a) && StrictlyIncreasing(b) && StrictlyIncreasing(f)
    requires Frontier(a, b, i, |b|) && FilterBelow(f, t, a, i) && i < |a|
    requires StrictlyIncreasing(out) && Elems(out) == (Elems(a[..i]) + Elems(b)) - Elems(f)
    requires |out| > 0 ==> out[|out| - 1] < a[i]
    requires StrictlyIncreasing(d) && Elems(d) == Elems(a[i..]) - Elems(f[t..])
    ensures StrictlyIncreasing(out + d)
    ensures Elems(out + d) == (Elems(a) + Elems(b)) - Elems(f)
  {
    OutBelowRest(a, i, out, d);
    OutRestElems(a, b, f, i, t, Elems(out), Elems(d));
    ElemsConcat(out, d);
  }

  lemma OutFinishA(a: seq<int>, b: seq<int>, f: seq<int>, i: int, t1: int, t2: int, out: seq<int>, d: seq<int>)
    requires OutProgress(a, b, f, i, |b|, t1, t2, out) && i < |a|
    requires StrictlyIncreasing(d) && Elems(d) == Elems(a[i..]) - Elems(f[t1..])
    ensures StrictlyIncreasing(out + d) && Elems(out + d) == (Elems(a) + Elems(b)) - Elems(f)
  {
    ElemsFull(b);
    OutRest(a, b, f, i, t1, out, d);
  }

  lemma OutFinishB(a: seq<int>, b: seq<int>, f: seq<int>, j: int, t1: int, t2: int, out: seq<int>, d: seq<int>)
    requires OutProgress(a, b, f, |a|, j, t1, t2, out) && j < |b|
    requires StrictlyIncreasing(d) && Elems(d) == Elems(b[j..]) - Elems(f[t2..])
    ensures StrictlyIncreasing(out + d) && Elems(out + d) == (Elems(a) + Elems(b)) - Elems(f)
  {
    ElemsFull(a);
    FrontierSwap(a, b, |a|, j);
    assert Elems(a) + Elems(b[..j]) == Elems(b[..j]) + Elems(a);
    OutRest(b, a, f, j, t2, out, d);
    assert Elems(b) + Elems(a) == Elems(a) + Elems(b);
  }

  lemma OutFinishBoth(a: seq<int>, b: seq<int>, f: seq<int>, t1: int, t2: int, out: seq<int>)
    requires OutProgress(a, b, f, |a|, |b|, t1, t2, out)
    ensures Elems(out) == (Elems(a) + Elems(b)) - Elems(f)
  {
    ElemsFull(a);
    ElemsFull(b);
  }

  /** std::set_difference on the rests of `s` and the filter, the tail of filtered_set_union. */
  method RestDifference(s: seq<int>, i: int, f: seq<int>, t: int) returns (d: seq<int>)
    requires StrictlyIncreasing(s) && StrictlyIncreasing(f) && 0 <= i <= |s| && 0 <= t <= |f|
    ensures StrictlyIncreasing(d) && Elems(d) == Elems(s[i..]) - Elems(f[t..])
  {
    SubsequenceIncreasing(s, i, |s|);
    SubsequenceIncreasing(f, t, |f|);
    d := SetDifference(s[i..], f[t..]);
  }

  /**
   * filtered_set_union: writes the strictly increasing sequence of the
   * values of A ∪ B that are not in F; with an empty filter this is
   * std::set_union.
   */
  method FilteredSetUnion(a: seq<int>, b: seq<int>, f: seq<int>) returns (out: seq<int>)
    requires StrictlyIncreasing(a) && StrictlyIncreasing(b) && StrictlyIncreasing(f)
    ensures StrictlyIncreasing(out)
    ensures Elems(out) == (Elems(a) + Elems(b)) - Elems(f)
    ensures |f| == 0 ==> Elems(out) == Elems(a) + Elems(b)
  {
    if |f| == 0 {
      out := SetUnion(a, b);
      EmptyFilter(a, b, f);
      return;
    }
    var i, j, t1, t2 := 0, 0, 0, 0;
    out := [];
    ElemsEmptyPrefix(a);
    ElemsEmptyPrefix(b);
    while i < |a| && j < |b|
      invariant OutProgress(a, b, f, i, j, t1, t2, out)
      decreases |a| - i + |b| - j
    {
      i, j, t1, t2, out := OutMergeStep(a, b, f, i, j, t1, t2, out);
    }
    out := OutTail(a, b, f, i, j, t1, t2, out);
  }

  /**
   * One iteration of the main loop of filtered_set_union: both filter
   * cursors catch up with their input values, then the smaller input
   * value (both, when equal) is emitted unless the filter holds it.
   */
  method OutMergeStep(a: seq<int>, b: seq<int>, f: seq<int>, i0: int, j0: int, t10: int, t20: int, out0: seq<int>)
    returns (i: int, j: int, t1: int, t2: int, out: seq<int>)
    requires OutProgress(a, b, f, i0, j0, t10, t20, out0) && i0 < |a| && j0 < |b|
    ensures OutProgress(a, b, f, i, j, t1, t2, out)
    ensures i0 <= i && j0 <= j && i + j > i0 + j0
  {
    i, j, out := i0, j0, out0;
    var value1, value2 := a[i], b[j];
    t1 := SkipBelow(f, t10, value1);
    t2 := SkipBelow(f, t20, value2);
    OutSkip(a, b, f, i, j, t10, t20, t1, t2, out);
    if value2 < value1 {
      OutStepB(a, b, f, i, j, t1, t2, out);
      if t2 == |f| || value2 < f[t2] {
        out := out + [value2];
      }
      j := j + 1;
    } else {
      if value1 < value2 {
        OutStepA(a, b, f, i, j, t1, t2, out);
      } else {
        OutStepBoth(a, b, f, i, j, t1, t2, out);
      }
      if t1 == |f| || value1 < f[t1] {
        out := out + [value1];
      }
      if !(value1 < value2) {
        j := j + 1;
      }
      i := i + 1;
    }
  }

  /** The tail of filtered_set_union: the rest of whichever input is left, minus the filter. */
  method OutTail(a: seq<int>, b: seq<int>, f: seq<int>, i: int, j: int, t1: int, t2: int, out0: seq<int>)
    returns (out: seq<int>)
    requires OutProgress(a, b, f, i, j, t1, t2, out0) && !(i < |a| && j < |b|)
    ensures StrictlyIncreasing(out) && Elems(out) == (Elems(a) + Elems(b)) - Elems(f)
  {
    out := out0;
    if i < |a| {
      var d := RestDifference(a, i, f, t1);
      OutFinishA(a, b, f, i, t1, t2, out, d);
      out := out + d;
    } else if j < |b| {
      var d := RestDifference(b, j, f, t2);
      OutFinishB(a, b, f, j, t1, t2, out, d);
      out := out + d;
    } else {
      OutFinishBoth(a, b, f, t1, t2, out);
    }
  }


  // ---------------------------------------------------------------------
  // inplace_set_union
  // ---------------------------------------------------------------------

  /** The two runs inplace_set_union hands to std::inplace_merge are sorted and disjoint. */
  lemma AppendedRuns(set1: seq<int>, extra: seq<int>)
    requires StrictlyIncreasing(set1) && StrictlyIncreasing(extra)
    requires Elems(extra) !! Elems(set1)
    ensures (set1 + extra)[..|set1|] == set1 && (set1 + extra)[|set1|..] == extra
  {
  }

  /**
   * inplace_set_union: appends B \ A to the vector holding A and merges
   * the two runs, leaving the sorted, duplicate-free A ∪ B of length
   * |A| + |B \ A|. The model returns the vector's new contents.
   */
  method InplaceSetUnion(set1: seq<int>, set2: seq<int>) returns (result: seq<int>)
    requires StrictlyIncreasing(set1) && StrictlyIncreasing(set2)
    ensures StrictlyIncreasing(result)
    ensures Elems(result) == Elems(set1) + Elems(set2)
    ensures |result| == |set1| + |Elems(set2) - Elems(set1)|
  {
    var mid := |set1|;
    var extra := SetDifference(set2, set1);
    AppendedRuns(set1, extra);
    var appended := set1 + extra;
    result := MergeRuns(appended, mid);
    ElemsConcat(set1, extra);
    CardElems(extra);
  }
}
