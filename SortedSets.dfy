/**
 * Sorted, duplicate-free vertex sequences and the standard-library
 * algorithms the htd helpers lean on (std::set_union, std::set_difference,
 * std::includes, std::inplace_merge and sort-then-unique), each written as
 * the merge loop it performs and proved against mathematical sets.
 */
module SortedSets {

  /** The shape of every bag and every sorted endpoint container. */
  predicate StrictlyIncreasing(s: seq<int>) {
    forall i, j :: 0 <= i < j < |s| ==> s[i] < s[j]
  }

  /** No value of a strictly increasing sequence exceeds its last. */
  lemma AtMostLast(s: seq<int>, i: int)
    requires StrictlyIncreasing(s) && 0 <= i < |s|
    ensures s[i] <= s[|s| - 1]
  {
    if i < |s| - 1 {
      assert s[i] < s[|s| - 1];
    }
  }

  /** The set of values a sequence holds. */
  function Elems(s: seq<int>): set<int> {
    set x | x in s
  }

  /**
   * The merge frontier of two cursors `i` into `a` and `j` into `b`: every
   * value already passed in one sequence lies below the value the other
   * cursor points at.
   */
  ghost predicate Frontier(a: seq<int>, b: seq<int>, i: int, j: int) {
    0 <= i <= |a| && 0 <= j <= |b| &&
    (i < |a| ==> forall k :: 0 <= k < j ==> b[k] < a[i]) &&
    (j < |b| ==> forall k :: 0 <= k < i ==> a[k] < b[j])
  }

  lemma FrontierSwap(a: seq<int>, b: seq<int>, i: int, j: int)
    requires Frontier(a, b, i, j)
    ensures Frontier(b, a, j, i)
  {
  }

  lemma ElemsPrefixStep(s: seq<int>, i: nat)
    requires i < |s|
    ensures Elems(s[..i + 1]) == Elems(s[..i]) + {s[i]}
  {
    assert s[..i + 1] == s[..i] + [s[i]];
  }

  lemma ElemsSplit(s: seq<int>, i: nat)
    requires i <= |s|
    ensures Elems(s) == Elems(s[..i]) + Elems(s[i..])
  {
    assert s == s[..i] + s[i..];
  }

  lemma ElemsConcat(s: seq<int>, t: seq<int>)
    ensures Elems(s + t) == Elems(s) + Elems(t)
  {
  }

  lemma ElemsFull(s: seq<int>)
    ensures s[..|s|] == s && Elems(s[..|s|]) == Elems(s)
  {
  }

  /** A strictly increasing sequence has as many values as positions. */
  lemma {:induction false} CardElems(s: seq<int>)
    requires StrictlyIncreasing(s)
    ensures |Elems(s)| == |s|
  {
    if |s| > 0 {
      var p := s[..|s| - 1];
      CardElems(p);
      ElemsPrefixStep(s, |s| - 1);
      assert s[..|s|] == s;
      assert s[|s| - 1] !in Elems(p);
    }
  }

  /** A value that falls strictly between positions `j - 1` and `j` is absent. */
  lemma NotInSorted(s: seq<int>, x: int, j: nat)
    requires StrictlyIncreasing(s) && j <= |s|
    requires forall k :: 0 <= k < j ==> s[k] < x
    requires j < |s| ==> x < s[j]
    ensures x !in Elems(s)
  {
    forall k | 0 <= k < |s|
      ensures s[k] != x
    {
      if k >= j {
        assert s[j] <= s[k];
      }
    }
  }

  /** Every value from position `i` on is at least `s[i]`. */
  lemma SuffixAbove(s: seq<int>, i: nat)
    requires StrictlyIncreasing(s) && i < |s|
    ensures forall x :: x in Elems(s[i..]) ==> s[i] <= x
  {
    forall x | x in Elems(s[i..])
      ensures s[i] <= x
    {
      var k :| 0 <= k < |s[i..]| && s[i..][k] == x;
      assert s[i + k] == x;
    }
  }

  lemma SubsequenceIncreasing(s: seq<int>, i: nat, j: nat)
    requires StrictlyIncreasing(s) && i <= j <= |s|
    ensures StrictlyIncreasing(s[i..j])
  {
  }

  lemma ElemsEmpty(s: seq<int>)
    ensures (|s| == 0) == (Elems(s) == {})
  {
    if |s| > 0 {
      assert s[0] in Elems(s);
    }
  }

  /** The first value of a non-empty strictly increasing sequence is its least. */
  lemma HeadLeast(s: seq<int>, x: int)
    requires StrictlyIncreasing(s) && x in Elems(s)
    ensures |s| > 0 && s[0] <= x
  {
    var k :| 0 <= k < |s| && s[k] == x;
    assert s[0] <= s[k];
  }

  /** Dropping the first value of a strictly increasing sequence drops exactly that value. */
  lemma ElemsTail(s: seq<int>)
    requires StrictlyIncreasing(s) && |s| > 0
    ensures StrictlyIncreasing(s[1..]) && Elems(s[1..]) == Elems(s) - {s[0]}
  {
    ElemsSplit(s, 1);
    assert Elems(s[..1]) == {s[0]};
    NotInSorted(s[1..], s[0], 0);
  }

  /** Two strictly increasing sequences with the same values are equal. */
  lemma {:induction false} UniqueSortedForm(s: seq<int>, t: seq<int>)
    requires StrictlyIncreasing(s) && StrictlyIncreasing(t)
    requires Elems(s) == Elems(t)
    ensures s == t
  {
    if |s| == 0 || |t| == 0 {
      ElemsEmpty(s);
      ElemsEmpty(t);
    } else {
      // the first element of each is the least value of the common set
      assert s[0] in Elems(t) && t[0] in Elems(s);
      HeadLeast(t, s[0]);
      HeadLeast(s, t[0]);
      ElemsTail(s);
      ElemsTail(t);
      UniqueSortedForm(s[1..], t[1..]);
      assert s == [s[0]] + s[1..];
      assert t == [t[0]] + t[1..];
    }
  }

  /** Adding a fresh value to a set that is then filtered. */
  lemma FilteredAddFresh(S: set<int>, F: set<int>, x: int)
    requires x !in S
    ensures |(S + {x}) - F| == |S - F| + (if x in F then 0 else 1)
  {
    if x in F {
      assert (S + {x}) - F == S - F;
    } else {
      assert (S + {x}) - F == (S - F) + {x};
    }
  }

  lemma AppendIncreasing(s: seq<int>, t: seq<int>)
    requires StrictlyIncreasing(s) && StrictlyIncreasing(t)
    requires forall k, m :: 0 <= k < |s| && 0 <= m < |t| ==> s[k] < t[m]
    ensures StrictlyIncreasing(s + t)
  {
  }

  lemma DisjointUnionCard(X: set<int>, Y: set<int>)
    requires X !! Y
    ensures |X + Y| == |X| + |Y|
  {
    assert X * Y == {};
  }

  /** Model of std::set_union over two sorted ranges. */
  method SetUnion(a: seq<int>, b: seq<int>) returns (out: seq<int>)
    requires StrictlyIncreasing(a) && StrictlyIncreasing(b)
    ensures StrictlyIncreasing(out)
    ensures Elems(out) == Elems(a) + Elems(b)
  {
    var i, j := 0, 0;
    out := [];
    while i < |a| && j < |b|
      invariant UnionProgress(a, b, i, j, out)
      decreases |a| - i + |b| - j
    {
      i, j, out := UnionMergeStep(a, b, i, j, out);
    }
    UnionFinish(a, b, i, j, out);
    if i < |a| {
      out := out + a[i..];
    } else if j < |b| {
      out := out + b[j..];
    }
  }

  /** One pass of the merge loop of SetUnion: the smaller front value is output, a common one once. */
  method UnionMergeStep(a: seq<int>, b: seq<int>, i0: int, j0: int, out0: seq<int>)
    returns (i: int, j: int, out: seq<int>)
    requires UnionProgress(a, b, i0, j0, out0) && i0 < |a| && j0 < |b|
    ensures UnionProgress(a, b, i, j, out)
    ensures i0 <= i && j0 <= j && i + j > i0 + j0
  {
    i, j, out := i0, j0, out0;
    if b[j] < a[i] {
      UnionStepB(a, b, i, j, out);
      out := out + [b[j]];
      j := j + 1;
    } else {
      if !(a[i] < b[j]) {
        UnionStepBoth(a, b, i, j, out);
        out := out + [a[i]];
        j := j + 1;
      } else {
        UnionStepA(a, b, i, j, out);
        out := out + [a[i]];
      }
      i := i + 1;
    }
  }

  /** The loop invariant of SetUnion. */
  ghost predicate UnionProgress(a: seq<int>, b: seq<int>, i: int, j: int, out: seq<int>) {
    StrictlyIncreasing(a) && StrictlyIncreasing(b) &&
    Frontier(a, b, i, j) &&
    StrictlyIncreasing(out) &&
    Elems(out) == Elems(a[..i]) + Elems(b[..j]) &&
    BelowCursors(out, a, b, i, j)
  }

  lemma UnionStepB(a: seq<int>, b: seq<int>, i: int, j: int, out: seq<int>)
    requires UnionProgress(a, b, i, j, out) && i < |a| && j < |b| && b[j] < a[i]
    ensures UnionProgress(a, b, i, j + 1, out + [b[j]])
  {
    AppendBelow(out, b[j]);
    ElemsConcat(out, [b[j]]);
    ElemsPrefixStep(b, j);
  }

  lemma UnionStepA(a: seq<int>, b: seq<int>, i: int, j: int, out: seq<int>)
    requires UnionProgress(a, b, i, j, out) && i < |a| && j < |b| && a[i] < b[j]
    ensures UnionProgress(a, b, i + 1, j, out + [a[i]])
  {
    AppendBelow(out, a[i]);
    ElemsConcat(out, [a[i]]);
    ElemsPrefixStep(a, i);
  }

  lemma UnionStepBoth(a: seq<int>, b: seq<int>, i: int, j: int, out: seq<int>)
    requires UnionProgress(a, b, i, j, out) && i < |a| && j < |b| && a[i] == b[j]
    ensures UnionProgress(a, b, i + 1, j + 1, out + [a[i]])
  {
    AppendBelow(out, a[i]);
    ElemsConcat(out, [a[i]]);
    ElemsPrefixStep(a, i);
    ElemsPrefixStep(b, j);
  }

  lemma UnionFinish(a: seq<int>, b: seq<int>, i: int, j: int, out: seq<int>)
    requires UnionProgress(a, b, i, j, out) && (i == |a| || j == |b|)
    ensures i < |a| ==> StrictlyIncreasing(out + a[i..]) && Elems(out + a[i..]) == Elems(a) + Elems(b)
    ensures i == |a| && j < |b| ==> StrictlyIncreasing(out + b[j..]) && Elems(out + b[j..]) == Elems(a) + Elems(b)
    ensures i == |a| && j == |b| ==> Elems(out) == Elems(a) + Elems(b)
  {
    ElemsSplit(a, i);
    ElemsSplit(b, j);
    ElemsFull(a);
    ElemsFull(b);
    if i < |a| {
      AppendTail(out, a, i);
    } else if j < |b| {
      AppendTail(out, b, j);
    }
  }

  /** Every value emitted so far lies below both cursors. */
  ghost predicate BelowCursors(out: seq<int>, a: seq<int>, b: seq<int>, i: int, j: int) {
    |out| > 0 ==>
      (0 <= i < |a| ==> out[|out| - 1] < a[i]) &&
      (0 <= j < |b| ==> out[|out| - 1] < b[j])
  }

  lemma AppendBelow(out: seq<int>, x: int)
    requires StrictlyIncreasing(out)
    requires |out| > 0 ==> out[|out| - 1] < x
    ensures StrictlyIncreasing(out + [x])
  {
    forall k | 0 <= k < |out|
      ensures out[k] < x
    {
      assert out[k] <= out[|out| - 1];
    }
  }

  lemma AppendTail(out: seq<int>, s: seq<int>, i: nat)
    requires StrictlyIncreasing(out) && StrictlyIncreasing(s) && i < |s|
    requires |out| > 0 ==> out[|out| - 1] < s[i]
    ensures StrictlyIncreasing(out + s[i..])
    ensures Elems(out + s[i..]) == Elems(out) + Elems(s[i..])
  {
    forall k, m | 0 <= k < |out| && 0 <= m < |s[i..]|
      ensures out[k] < s[i..][m]
    {
      assert out[k] <= out[|out| - 1];
      assert s[i] <= s[i + m];
    }
    SubsequenceIncreasing(s, i, |s|);
    AppendIncreasing(out, s[i..]);
    ElemsConcat(out, s[i..]);
  }

  /** The loop invariant of SetDifference: `out` holds the values of `a[..i]` outside `b`, in order. */
  ghost predicate DifferenceOutProgress(a: seq<int>, b: seq<int>, i: int, j: int, out: seq<int>) {
    StrictlyIncreasing(a) && StrictlyIncreasing(b) && Frontier(a, b, i, j) &&
    StrictlyIncreasing(out) && Elems(out) == Elems(a[..i]) - Elems(b) && BelowCursors(out, a, [], i, 0)
  }

  /** One pass of the merge loop of SetDifference: a value of `a` below the front of `b` is output. */
  method DifferenceOutStep(a: seq<int>, b: seq<int>, i0: int, j0: int, out0: seq<int>)
    returns (i: int, j: int, out: seq<int>)
    requires DifferenceOutProgress(a, b, i0, j0, out0) && i0 < |a| && j0 < |b|
    ensures DifferenceOutProgress(a, b, i, j, out)
    ensures i0 <= i && j0 <= j && i + j > i0 + j0
  {
    i, j, out := i0, j0, out0;
    ElemsPrefixStep(a, i);
    if a[i] < b[j] {
      NotInSorted(b, a[i], j);
      AppendBelow(out, a[i]);
      ElemsConcat(out, [a[i]]);
      out := out + [a[i]];
      i := i + 1;
    } else {
      if !(b[j] < a[i]) {
        i := i + 1;
      }
      j := j + 1;
    }
  }

  /** Model of std::set_difference over two sorted ranges: the values of `a` absent from `b`. */
  method SetDifference(a: seq<int>, b: seq<int>) returns (out: seq<int>)
    requires StrictlyIncreasing(a) && StrictlyIncreasing(b)
    ensures StrictlyIncreasing(out)
    ensures Elems(out) == Elems(a) - Elems(b)
  {
    var i, j := 0, 0;
    out := [];
    while i < |a| && j < |b|
      invariant DifferenceOutProgress(a, b, i, j, out)
      decreases |a| - i + |b| - j
    {
      i, j, out := DifferenceOutStep(a, b, i, j, out);
    }
    if i < |a| {
      NotInTail(a, b, i);
      ElemsSplit(a, i);
      assert Elems(a) - Elems(b) == (Elems(a[..i]) - Elems(b)) + Elems(a[i..]);
      AppendTail(out, a, i);
      out := out + a[i..];
    }
    ElemsFull(a);
  }

  /** Once `b` is exhausted, nothing from position `i` of `a` on is in `b`. */
  lemma NotInTail(a: seq<int>, b: seq<int>, i: nat)
    requires StrictlyIncreasing(a) && StrictlyIncreasing(b)
    requires Frontier(a, b, i, |b|) && i < |a|
    ensures Elems(a[i..]) !! Elems(b)
  {
    forall x | x in Elems(a[i..])
      ensures x !in Elems(b)
    {
      SuffixAbove(a, i);
      NotInSorted(b, x, |b|);
    }
  }

  /** Model of std::includes: every value of `sub` occurs in `a`. */
  method Includes(a: seq<int>, sub: seq<int>) returns (r: bool)
    requires StrictlyIncreasing(a) && StrictlyIncreasing(sub)
    ensures r <==> Elems(sub) <= Elems(a)
  {
    var i, j := 0, 0;
    while j < |sub|
      invariant 0 <= i <= |a| && 0 <= j <= |sub|
      invariant Elems(sub[..j]) <= Elems(a)
      invariant j < |sub| ==> forall k :: 0 <= k < i ==> a[k] < sub[j]
      decreases |a| - i + |sub| - j
    {
      if i == |a| || sub[j] < a[i] {
        // sub[j] lies below a[i] and above every earlier value of a
        NotInSorted(a, sub[j], i);
        assert sub[j] in Elems(sub);
        return false;
      }
      if !(a[i] < sub[j]) {
        ElemsPrefixStep(sub, j);
        j := j + 1;
      }
      i := i + 1;
    }
    ElemsFull(sub);
    return true;
  }

  /**
   * Model of std::inplace_merge applied to two adjacent sorted runs
   * `s[..mid]` and `s[mid..]` that share no value.
   */
  method MergeRuns(s: seq<int>, mid: nat) returns (out: seq<int>)
    requires mid <= |s|
    requires StrictlyIncreasing(s[..mid]) && StrictlyIncreasing(s[mid..])
    requires Elems(s[..mid]) !! Elems(s[mid..])
    ensures StrictlyIncreasing(out)
    ensures Elems(out) == Elems(s)
    ensures |out| == |s|
  {
    var a, b := s[..mid], s[mid..];
    out := SetUnion(a, b);
    ElemsSplit(s, mid);
    CardElems(out);
    CardElems(a);
    CardElems(b);
    DisjointUnionCard(Elems(a), Elems(b));
  }

  /** Inserts `x` into a strictly increasing sequence. */
  function Insert(x: int, s: seq<int>): (r: seq<int>)
    requires StrictlyIncreasing(s)
    ensures StrictlyIncreasing(r)
    ensures Elems(r) == Elems(s) + {x}
  {
    if |s| == 0 then [x]
    else if x < s[0] then
      PrependIncreasing(x, s);
      [x] + s
    else if x == s[0] then s
    else
      var rest := Insert(x, s[1..]);
      RestAbove(x, s, rest);
      PrependIncreasing(s[0], rest);
      ConsElems(s);
      ElemsConcat([s[0]], rest);
      [s[0]] + rest
  }

  /** Every value of `s[1..]` with `x` added lies above the head of `s` when `x` does. */
  lemma RestAbove(x: int, s: seq<int>, rest: seq<int>)
    requires StrictlyIncreasing(s) && |s| > 0 && s[0] < x
    requires Elems(rest) == Elems(s[1..]) + {x}
    ensures forall k :: 0 <= k < |rest| ==> s[0] < rest[k]
  {
    forall k | 0 <= k < |rest|
      ensures s[0] < rest[k]
    {
      assert rest[k] in Elems(rest);
      if rest[k] != x {
        var m :| 0 <= m < |s[1..]| && s[1..][m] == rest[k];
        assert s[0] < s[1 + m];
      }
    }
  }

  lemma ConsElems(s: seq<int>)
    requires |s| > 0
    ensures Elems(s) == {s[0]} + Elems(s[1..])
  {
    assert s == [s[0]] + s[1..];
  }

  lemma PrependIncreasing(x: int, s: seq<int>)
    requires StrictlyIncreasing(s)
    requires forall k :: 0 <= k < |s| ==> x < s[k]
    ensures StrictlyIncreasing([x] + s)
  {
  }

  /** Model of sorting a container and erasing adjacent duplicates (std::sort, std::unique). */
  function SortedUnique(s: seq<int>): (r: seq<int>)
    ensures StrictlyIncreasing(r)
    ensures Elems(r) == Elems(s)
  {
    if |s| == 0 then []
    else
      assert s == [s[0]] + s[1..];
      assert Elems(s) == {s[0]} + Elems(s[1..]);
      Insert(s[0], SortedUnique(s[1..]))
  }

  /**
   * The values of `s` that do not occur in `t`, in the order of `s`: the
   * forgotten vertices of a node relative to a child are `Without(childBag, bag)`.
   */
  function Without(s: seq<int>, t: seq<int>): (r: seq<int>)
    ensures Elems(r) == Elems(s) - Elems(t)
    ensures StrictlyIncreasing(s) ==> StrictlyIncreasing(r)
    ensures |r| <= |s|
  {
    if |s| == 0 then []
    else
      var rest := Without(s[1..], t);
      ConsElems(s);
      ElemsConcat([s[0]], rest);
      if s[0] in t then rest
      else
        HeadBelow(s, rest);
        [s[0]] + rest
  }

  lemma HeadBelow(s: seq<int>, rest: seq<int>)
    requires |s| > 0 && Elems(rest) <= Elems(s[1..])
    requires StrictlyIncreasing(s[1..]) ==> StrictlyIncreasing(rest)
    ensures StrictlyIncreasing(s) ==> StrictlyIncreasing([s[0]] + rest)
  {
    if StrictlyIncreasing(s) {
      forall k | 0 <= k < |rest|
        ensures s[0] < rest[k]
      {
        assert rest[k] in Elems(s[1..]);
      }
      SubsequenceIncreasing(s, 1, |s|);
      PrependIncreasing(s[0], rest);
    }
  }

  /** Every entry of `s` occurs in `t`; checked entry by entry. */
  predicate AllInside(s: seq<int>, t: seq<int>)
    decreases |s|
  {
    |s| == 0 || (s[0] in t && AllInside(s[1..], t))
  }

  /** The entry-by-entry check agrees with set inclusion. */
  lemma {:induction false} AllInsideIff(s: seq<int>, t: seq<int>)
    ensures AllInside(s, t) <==> Elems(s) <= Elems(t)
    decreases |s|
  {
    if |s| > 0 {
      ConsElems(s);
      AllInsideIff(s[1..], t);
    }
  }

  /** Some entry of `s` is missing from `t`; checked entry by entry. */
  predicate SomeOutside(s: seq<int>, t: seq<int>)
    decreases |s|
  {
    |s| > 0 && (s[0] !in t || SomeOutside(s[1..], t))
  }

  /** The entry-by-entry check agrees with a non-empty set difference. */
  lemma {:induction false} SomeOutsideIff(s: seq<int>, t: seq<int>)
    ensures SomeOutside(s, t) <==> |Elems(s) - Elems(t)| > 0
    decreases |s|
  {
    if |s| == 0 {
      assert Elems(s) == {};
    } else {
      ConsElems(s);
      SomeOutsideIff(s[1..], t);
      if s[0] !in t {
        assert s[0] in Elems(s) - Elems(t);
      } else {
        assert Elems(s) - Elems(t) == Elems(s[1..]) - Elems(t);
      }
    }
  }
}
