/**
 * The labelling pass of `InducedSubgraphLabelingOperation::apply` as the
 * source runs it: one object holding the preprocessed hyperedges and the
 * two state arrays, updated in place by the post-order callback.
 */
module InducedSubgraphLabelingPass {
  import opened SortedSets
  import opened Helpers
  import opened InducedSubgraphLabeling
  import opened Outcomes

  /**
   * The verdict on hyperedge `k` once the children of `v` up to position
   * `ci` have been scanned, the last of them up to label position `m`:
   * 1 if not met yet, else 3 if sealed, else 2.
   */
  ghost function Verdict(graph: seq<Hyperedge>, d: Decomposition, labelIndices: map<nat, seq<nat>>,
                         introducedAt: map<nat, nat>, v: nat, k: nat, ci: nat, m: nat): int
  {
    if v < |d.bags| && v < |d.children| && ci <= |d.children[v]| && k < |graph| &&
      k in introducedAt && introducedAt[k] < |d.bags| && introducedAt[k] in labelIndices &&
      (introducedAt[k] in d.children[v][..ci] ||
       (ci < |d.children[v]| && introducedAt[k] == d.children[v][ci] &&
        k in Prefix(labelIndices[introducedAt[k]], m)))
    then (if Seals(d, v, introducedAt[k], graph[k].endpoints) then 3 else 2)
    else 1
  }

  /**
   * The state of one run of `apply`: the preprocessed hyperedges, the two
   * state arrays, and the labels written so far. The ghost fields record,
   * for each placed hyperedge, the node whose label holds it and the
   * parent that sealed it, if any.
   */
  class LabelingPass {
    const graph: seq<Hyperedge>
    const d: Decomposition
    const hyperedges: seq<Hyperedge>
    const hyperedgeIndices: map<int, nat>
    const hyperedgeState: array<int>
    const childHyperedgeState: array<int>
    var labels: map<nat, seq<Hyperedge>>
    ghost var labelIndices: map<nat, seq<nat>>
    ghost var introducedAt: map<nat, nat>
    ghost var sealedAt: map<nat, nat>

    /** The fixed part: the inputs, the preprocessed copies and the array sizes. */
    ghost predicate Shape()
    {
      WellFormed(d) && DistinctIds(graph) && |hyperedges| == |graph| &&
      (forall k :: 0 <= k < |graph| ==>
        hyperedges[k].id == graph[k].id && StrictlyIncreasing(hyperedges[k].endpoints) &&
        Elems(hyperedges[k].endpoints) == Elems(graph[k].endpoints)) &&
      (forall k :: 0 <= k < |graph| ==> graph[k].id in hyperedgeIndices && hyperedgeIndices[graph[k].id] == k) &&
      hyperedgeState.Length == |graph| && childHyperedgeState.Length == |graph| &&
      hyperedgeState != childHyperedgeState
    }

    /** The part of the invariant that does not look at the state arrays. */
    ghost predicate Recorded()
      reads this
    {
      Shape() && Indexed(graph, d, labels, labelIndices) && PlacedAt(graph, d, labelIndices, introducedAt)
    }

    /** The invariant of the pass between two visits. */
    ghost predicate Valid()
      reads this, hyperedgeState
    {
      Shape() && Invariant(graph, d, labels, labelIndices, introducedAt, sealedAt, hyperedgeState[..])
    }

    /** The start of `apply`: preprocessing done, every state 1, no label written. */
    constructor (graph: seq<Hyperedge>, d: Decomposition)
      requires WellFormed(d) && DistinctIds(graph)
      ensures Valid() && this.graph == graph && this.d == d && labels == map[]
      ensures fresh(hyperedgeState) && fresh(childHyperedgeState)
      ensures forall k :: 0 <= k < |graph| ==> hyperedgeState[k] == 1
      ensures childHyperedgeState.Length == |graph|
      ensures forall k :: 0 <= k < |graph| ==> childHyperedgeState[k] == 1
    {
      var sorted, indices := Preprocess(graph);
      forall k | 0 <= k < |graph|
        ensures indices[graph[k].id] == k
      {
        PreprocessedIndex(graph, indices, k);
      }
      this.graph := graph;
      this.d := d;
      hyperedges := sorted;
      hyperedgeIndices := indices;
      hyperedgeState := new int[|graph|](_ => 1);
      childHyperedgeState := new int[|graph|](_ => 1);
      labels := map[];
      labelIndices := map[];
      introducedAt := map[];
      sealedAt := map[];
    }

    /**
     * The loop over the children of a node other than the root. It resets
     * the child verdicts to 1. Then, for each hyperedge in a child's label,
     * it seals it (state 3, verdict 3) when it meets the vertices forgotten
     * towards the node, and otherwise gives it verdict 2. It returns the
     * subset-check flag.
     */
    method ScanChildren(v: nat) returns (check: bool)
      requires Recorded() && v < |d.bags| && v != d.root
      requires forall m :: 0 <= m < |d.children[v]| ==> d.children[v][m] in labels
      modifies hyperedgeState, childHyperedgeState
      ensures check == CheckNeeded(d, v)
      ensures forall k :: 0 <= k < |graph| ==>
        childHyperedgeState[k] == Verdict(graph, d, labelIndices, introducedAt, v, k, |d.children[v]|, 0)
      ensures forall k :: 0 <= k < |graph| ==>
        hyperedgeState[k] == if Verdict(graph, d, labelIndices, introducedAt, v, k, |d.children[v]|, 0) == 3 then 3 else old(hyperedgeState[k])
    {
      forall k | 0 <= k < childHyperedgeState.Length {
        childHyperedgeState[k] := 1;
      }
      check := false;
      var children := d.children[v];
      if |children| > 0 {
        var ci := 0;
        while ci < |children|
          invariant 0 <= ci <= |children|
          invariant forall k :: 0 <= k < |graph| ==> childHyperedgeState[k] == Verdict(graph, d, labelIndices, introducedAt, v, k, ci, 0)
          invariant forall k :: 0 <= k < |graph| ==>
            hyperedgeState[k] == if Verdict(graph, d, labelIndices, introducedAt, v, k, ci, 0) == 3 then 3 else old(hyperedgeState[k])
          invariant ci > 0 ==> check == SomeOutside(d.bags[v], d.bags[children[ci - 1]])
        {
          var child := children[ci];
          ScanChild(v, ci);
          var introducedCount := SetDifferenceSize(d.bags[v], d.bags[child]);
          SomeOutsideIff(d.bags[v], d.bags[child]);
          check := introducedCount > 0;
          ci := ci + 1;
        }
      } else {
        check := true;
      }
    }

    /** The verdicts after a whole label equal those at the start of the next child. */
    lemma VerdictNextChild(v: nat, ci: nat, k: nat)
      requires Recorded() && v < |d.bags| && ci < |d.children[v]| && k < |graph|
      requires d.children[v][ci] in labelIndices
      ensures Verdict(graph, d, labelIndices, introducedAt, v, k, ci, |labelIndices[d.children[v][ci]]|) == Verdict(graph, d, labelIndices, introducedAt, v, k, ci + 1, 0)
    {
      var c := d.children[v][ci];
      assert d.children[v][..ci + 1] == d.children[v][..ci] + [c];
      assert labelIndices[c][..|labelIndices[c]|] == labelIndices[c];
    }

    /** The scan of one child's label (the inner loop over its hyperedges). */
    method ScanChild(v: nat, ci: nat)
      requires Recorded() && v < |d.bags| && v != d.root && ci < |d.children[v]|
      requires d.children[v][ci] in labels
      requires forall k :: 0 <= k < |graph| ==>
        childHyperedgeState[k] == Verdict(graph, d, labelIndices, introducedAt, v, k, ci, 0)
      modifies hyperedgeState, childHyperedgeState
      ensures forall k :: 0 <= k < |graph| ==>
        childHyperedgeState[k] == Verdict(graph, d, labelIndices, introducedAt, v, k, ci + 1, 0)
      ensures forall k :: 0 <= k < |graph| ==>
        old(childHyperedgeState[k]) == 1 || childHyperedgeState[k] == old(childHyperedgeState[k])
      ensures forall k :: 0 <= k < |graph| ==>
        hyperedgeState[k] == if childHyperedgeState[k] == 3 && old(childHyperedgeState[k]) != 3 then 3
                             else old(hyperedgeState[k])
    {
      var child := d.children[v][ci];
      var childLabel := labels[child];
      ghost var verdicts, states := childHyperedgeState[..], hyperedgeState[..];
      var m := 0;
      while m < |childLabel|
        invariant 0 <= m <= |childLabel|
        invariant forall k :: 0 <= k < |graph| ==>
          childHyperedgeState[k] == Verdict(graph, d, labelIndices, introducedAt, v, k, ci, m)
        invariant forall k :: 0 <= k < |graph| ==> verdicts[k] == 1 || childHyperedgeState[k] == verdicts[k]
        invariant forall k :: 0 <= k < |graph| ==>
          hyperedgeState[k] == if childHyperedgeState[k] == 3 && verdicts[k] != 3 then 3 else states[k]
      {
        ScanEntry(v, ci, m);
        m := m + 1;
      }
      forall k | 0 <= k < |graph|
        ensures Verdict(graph, d, labelIndices, introducedAt, v, k, ci, |childLabel|) ==
                Verdict(graph, d, labelIndices, introducedAt, v, k, ci + 1, 0)
      {
        VerdictNextChild(v, ci, k);
      }
    }

    /**
     * One iteration of the inner loop: the hyperedge at label position `m`
     * of the child, when still at verdict 1, is sealed (state and verdict
     * 3) if it meets the forgotten vertices and gets verdict 2 otherwise.
     * Nothing else changes.
     */
    method ScanEntry(v: nat, ci: nat, m: nat)
      requires Recorded() && v < |d.bags| && v != d.root && ci < |d.children[v]|
      requires d.children[v][ci] in labels && m < |labels[d.children[v][ci]]|
      requires forall k :: 0 <= k < |graph| ==>
        childHyperedgeState[k] == Verdict(graph, d, labelIndices, introducedAt, v, k, ci, m)
      modifies hyperedgeState, childHyperedgeState
      ensures forall k :: 0 <= k < |graph| ==>
        childHyperedgeState[k] == Verdict(graph, d, labelIndices, introducedAt, v, k, ci, m + 1)
      ensures forall k :: 0 <= k < |graph| ==>
        old(childHyperedgeState[k]) == 1 || childHyperedgeState[k] == old(childHyperedgeState[k])
      ensures forall k :: 0 <= k < |graph| ==>
        hyperedgeState[k] == if childHyperedgeState[k] == 3 && old(childHyperedgeState[k]) != 3 then 3
                             else old(hyperedgeState[k])
    {
      var child := d.children[v][ci];
      var forgottenVertexCollection := Forgotten(d, v, child);
      var hyperedge := labels[child][m];
      var index := hyperedgeIndices[hyperedge.id];
      ScanStep(v, ci, m, index);
      if childHyperedgeState[index] == 1 {
        var meets := false;
        if |forgottenVertexCollection| > 0 {
          meets := HasNonEmptySetIntersection(hyperedge.endpoints, forgottenVertexCollection);
        }
        if meets {
          hyperedgeState[index] := 3;
          childHyperedgeState[index] := 3;
        } else {
          childHyperedgeState[index] := 2;
        }
      }
    }

    /**
     * One step of the inner loop: the hyperedge at label position `m` of
     * the child sits at graph position `index`. The step decides its
     * verdict unless an earlier entry of the children list (the same child
     * listed again) already did; no other verdict changes.
     */
    lemma ScanStep(v: nat, ci: nat, m: nat, index: nat)
      requires Recorded() && v < |d.bags| && ci < |d.children[v]|
      requires d.children[v][ci] in labels && m < |labels[d.children[v][ci]]|
      requires index == hyperedgeIndices[labels[d.children[v][ci]][m].id]
      ensures index < |graph| && labels[d.children[v][ci]][m] == graph[index]
      ensures Verdict(graph, d, labelIndices, introducedAt, v, index, ci, m) == 1 ==>
        Verdict(graph, d, labelIndices, introducedAt, v, index, ci, 0) == 1 &&
        Verdict(graph, d, labelIndices, introducedAt, v, index, ci, m + 1) == if Seals(d, v, d.children[v][ci], graph[index].endpoints) then 3 else 2
      ensures Verdict(graph, d, labelIndices, introducedAt, v, index, ci, m) != 1 ==> Verdict(graph, d, labelIndices, introducedAt, v, index, ci, m + 1) == Verdict(graph, d, labelIndices, introducedAt, v, index, ci, m)
      ensures forall k :: 0 <= k < |graph| && k != index ==> Verdict(graph, d, labelIndices, introducedAt, v, k, ci, m + 1) == Verdict(graph, d, labelIndices, introducedAt, v, k, ci, m)
    {
      var c := d.children[v][ci];
      var k0 := labelIndices[c][m];
      assert labels[c][m] == graph[k0];
      assert index == k0;
      assert c != d.root;
      assert k0 in introducedAt && introducedAt[k0] == c;
      assert labelIndices[c][..m + 1] == labelIndices[c][..m] + [k0];
      forall j | 0 <= j < m
        ensures labelIndices[c][j] != k0
      {
      }
      assert k0 !in labelIndices[c][..m];
    }

    /**
     * The loop over all hyperedges at a node other than the root. A
     * hyperedge still in state 1 joins the label when its child verdict is
     * 2 (a branch that never fires, see below), or when the check flag is
     * set and its sorted endpoints lie in the bag; in the latter case it
     * moves to state 2. A child verdict of 2 always belongs to a hyperedge
     * already out of state 1, so the label is exactly the hyperedges in
     * state 1 whose endpoints the bag contains, when the flag is set.
     */
    method CollectLabel(v: nat, check: bool) returns (labelContent: seq<Hyperedge>, ghost idx: seq<nat>)
      requires Shape() && v < |d.bags|
      requires forall k :: 0 <= k < |graph| ==> childHyperedgeState[k] == 2 ==> hyperedgeState[k] >= 2
      modifies hyperedgeState
      ensures |labelContent| == |idx| && StrictlyIncreasing(idx)
      ensures forall m :: 0 <= m < |idx| ==> idx[m] < |graph| && labelContent[m] == graph[idx[m]]
      ensures forall k :: 0 <= k < |graph| ==>
        (k in idx <==> old(hyperedgeState[k]) == 1 && check &&
                       AllInside(graph[k].endpoints, d.bags[v]))
      ensures forall k :: 0 <= k < |graph| ==>
        hyperedgeState[k] == if k in idx then 2 else old(hyperedgeState[k])
    {
      var index: nat := 0;
      labelContent, idx := [], [];
      while index < |hyperedges|
        invariant index <= |graph| && |labelContent| == |idx| && StrictlyIncreasing(idx)
        invariant forall m :: 0 <= m < |idx| ==> idx[m] < index && labelContent[m] == graph[idx[m]]
        invariant forall k :: 0 <= k < index ==>
          (k in idx <==> old(hyperedgeState[k]) == 1 && check &&
                         AllInside(graph[k].endpoints, d.bags[v]))
        invariant forall k :: 0 <= k < |graph| ==>
          hyperedgeState[k] == if k < index && k in idx then 2 else old(hyperedgeState[k])
      {
        var hyperedge := graph[index];
        if hyperedgeState[index] == 1 {
          if childHyperedgeState[index] == 2 {
            // inherited from a child: unreachable, since such hyperedges are past state 1
            labelContent := labelContent + [hyperedge];
            idx := idx + [index];
          } else if check {
            var contained := Includes(d.bags[v], hyperedges[index].endpoints);
            AllInsideIff(graph[index].endpoints, d.bags[v]);
            if contained {
              labelContent := labelContent + [hyperedge];
              idx := idx + [index];
              hyperedgeState[index] := 2;
            }
          }
        }
        index := index + 1;
      }
    }

    /** The loop at the root: the label is every hyperedge not in state 3, and every state becomes 3. */
    method CollectRootLabel() returns (labelContent: seq<Hyperedge>, ghost idx: seq<nat>)
      requires Shape()
      modifies hyperedgeState
      ensures |labelContent| == |idx| && StrictlyIncreasing(idx)
      ensures forall m :: 0 <= m < |idx| ==> idx[m] < |graph| && labelContent[m] == graph[idx[m]]
      ensures forall k :: 0 <= k < |graph| ==> (k in idx <==> old(hyperedgeState[k]) < 3)
      ensures forall k :: 0 <= k < |graph| ==> hyperedgeState[k] == 3
    {
      var index: nat := 0;
      labelContent, idx := [], [];
      while index < |hyperedges|
        invariant index <= |graph| && |labelContent| == |idx| && StrictlyIncreasing(idx)
        invariant forall m :: 0 <= m < |idx| ==> idx[m] < index && labelContent[m] == graph[idx[m]]
        invariant forall k :: 0 <= k < index ==> (k in idx <==> old(hyperedgeState[k]) < 3)
        invariant forall k :: 0 <= k < |graph| ==>
          hyperedgeState[k] == if k < index then 3 else old(hyperedgeState[k])
      {
        if hyperedgeState[index] < 3 {
          labelContent := labelContent + [graph[index]];
          idx := idx + [index];
        }
        hyperedgeState[index] := 3;
        index := index + 1;
      }
    }

    /**
     * The loop at the root as evidently intended: the label is every
     * hyperedge still in state 1, which no other node took, and every
     * state becomes 3.
     */
    method CollectUnplacedRootLabel() returns (labelContent: seq<Hyperedge>, ghost idx: seq<nat>)
      requires Shape()
      modifies hyperedgeState
      ensures |labelContent| == |idx| && StrictlyIncreasing(idx)
      ensures forall m :: 0 <= m < |idx| ==> idx[m] < |graph| && labelContent[m] == graph[idx[m]]
      ensures forall k :: 0 <= k < |graph| ==> (k in idx <==> old(hyperedgeState[k]) == 1)
      ensures forall k :: 0 <= k < |graph| ==> hyperedgeState[k] == 3
    {
      var index: nat := 0;
      labelContent, idx := [], [];
      while index < |hyperedges|
        invariant index <= |graph| && |labelContent| == |idx| && StrictlyIncreasing(idx)
        invariant forall m :: 0 <= m < |idx| ==> idx[m] < index && labelContent[m] == graph[idx[m]]
        invariant forall k :: 0 <= k < index ==> (k in idx <==> old(hyperedgeState[k]) == 1)
        invariant forall k :: 0 <= k < |graph| ==>
          hyperedgeState[k] == if k < index then 3 else old(hyperedgeState[k])
      {
        if hyperedgeState[index] == 1 {
          labelContent := labelContent + [graph[index]];
          idx := idx + [index];
        }
        hyperedgeState[index] := 3;
        index := index + 1;
      }
    }

    /** At the end of the children loop, the verdict depends only on who placed the hyperedge. */
    lemma VerdictFinal(v: nat, k: nat)
      requires Recorded() && v < |d.bags| && k < |graph|
      ensures Verdict(graph, d, labelIndices, introducedAt, v, k, |d.children[v]|, 0) ==
        if k in introducedAt && introducedAt[k] in d.children[v] then
          (if Seals(d, v, introducedAt[k], graph[k].endpoints) then 3 else 2)
        else 1
    {
      assert d.children[v][..|d.children[v]|] == d.children[v];
    }

    /**
     * The callback for one node in post-order. At a node other than the
     * root it seals and collects as above. At the root it collects every
     * hyperedge not sealed when `retake` holds, as the source does, and
     * otherwise only the hyperedges no other node took. Either way it
     * stores the label.
     */
    method Visit(v: nat, retake: bool)
      requires Valid() && v < |d.bags| && v !in labels && d.root !in labels
      requires forall m :: 0 <= m < |d.children[v]| ==> d.children[v][m] in labels
      requires forall p :: p in labels ==> v !in d.children[p]
      modifies this, hyperedgeState, childHyperedgeState
      ensures Valid()
      ensures v in labels && labels == old(labels)[v := labels[v]]
      ensures VisitPlaced(v, old(introducedAt))
      ensures v == d.root ==> RootHolds(retake)
    {
      if v != d.root {
        VisitNode(v);
      } else if retake {
        VisitRoot();
      } else {
        VisitRootCorrected();
      }
    }

    /**
     * What the root's label holds: with `retake`, as the source does, every
     * hyperedge no parent sealed; without it, every hyperedge no node took.
     */
    ghost predicate RootHolds(retake: bool)
      reads this
      requires d.root in labelIndices
    {
      forall k :: 0 <= k < |graph| ==>
        (k in labelIndices[d.root] <==> if retake then k !in sealedAt else k !in introducedAt)
    }

    /**
     * What visiting `v` did to the placements, from `before`: the root
     * places nothing; any other node places exactly the hyperedges that
     * were unplaced and that it fits, and its label holds exactly those.
     */
    ghost predicate VisitPlaced(v: nat, before: map<nat, nat>)
      reads this
      requires WellFormed(d) && v < |d.bags|
    {
      v in labelIndices &&
      if v == d.root then introducedAt == before
      else
        introducedAt == Extend(before, Positions(labelIndices[v]), v) &&
        forall k :: 0 <= k < |graph| ==>
          (k in labelIndices[v] <==> k !in before && CheckNeeded(d, v) && AllInside(graph[k].endpoints, d.bags[v]))
    }

    method VisitRoot()
      requires Valid() && d.root !in labels
      modifies this, hyperedgeState
      ensures Valid()
      ensures d.root in labels && labels == old(labels)[d.root := labels[d.root]]
      ensures introducedAt == old(introducedAt) && VisitPlaced(d.root, old(introducedAt))
      ensures forall k :: 0 <= k < |graph| ==> (k in labelIndices[d.root] <==> k !in sealedAt)
      ensures RootHolds(true)
    {
      ghost var oldStates := hyperedgeState[..];
      var labelContent, idx := CollectRootLabel();
      RootStep(graph, d, labels, labelIndices, introducedAt, sealedAt, labelContent, idx, oldStates, hyperedgeState[..]);
      labels := labels[d.root := labelContent];
      labelIndices := labelIndices[d.root := idx];
    }

    /** The callback at the root as evidently intended: the label is every hyperedge no other node took. */
    method VisitRootCorrected()
      requires Valid() && d.root !in labels
      modifies this, hyperedgeState
      ensures Valid()
      ensures d.root in labels && labels == old(labels)[d.root := labels[d.root]]
      ensures introducedAt == old(introducedAt) && VisitPlaced(d.root, old(introducedAt))
      ensures forall k :: 0 <= k < |graph| ==> (k in labelIndices[d.root] <==> k !in introducedAt)
      ensures RootHolds(false)
    {
      ghost var oldStates := hyperedgeState[..];
      var labelContent, idx := CollectUnplacedRootLabel();
      RootStep(graph, d, labels, labelIndices, introducedAt, sealedAt, labelContent, idx, oldStates, hyperedgeState[..]);
      labels := labels[d.root := labelContent];
      labelIndices := labelIndices[d.root := idx];
    }

    /**
     * The callback at a node other than the root, up to storing the
     * label: the children loop seals (`sealedStates`), then the collecting
     * loop places.
     */
    method NodeLabel(v: nat, ghost oldStates: seq<int>)
      returns (labelContent: seq<Hyperedge>, ghost idx: seq<nat>, ghost sealedStates: seq<int>, ghost states: seq<int>)
      requires Recorded() && v < |d.bags| && v != d.root && oldStates == hyperedgeState[..]
      requires forall m :: 0 <= m < |d.children[v]| ==> d.children[v][m] in labels
      requires forall k :: k in introducedAt && k < |graph| ==> oldStates[k] >= 2
      modifies hyperedgeState, childHyperedgeState
      ensures states == hyperedgeState[..]
      ensures |sealedStates| == |graph| && |states| == |graph|
      ensures forall k :: 0 <= k < |graph| ==>
        sealedStates[k] == if k in NewlySealed(graph, d, introducedAt, v) then 3 else oldStates[k]
      ensures |labelContent| == |idx| && StrictlyIncreasing(idx)
      ensures forall m :: 0 <= m < |idx| ==> idx[m] < |graph| && labelContent[m] == graph[idx[m]]
      ensures forall k :: 0 <= k < |graph| ==>
        (k in idx <==> sealedStates[k] == 1 && CheckNeeded(d, v) && AllInside(graph[k].endpoints, d.bags[v]))
      ensures forall k :: 0 <= k < |graph| ==> states[k] == if k in idx then 2 else sealedStates[k]
    {
      var check := ScanChildren(v);
      forall k: nat | k < |graph|
        ensures hyperedgeState[k] == if k in NewlySealed(graph, d, introducedAt, v) then 3 else oldStates[k]
        ensures childHyperedgeState[k] == 2 ==> hyperedgeState[k] >= 2
      {
        VerdictFinal(v, k);
      }
      sealedStates := hyperedgeState[..];
      labelContent, idx := CollectLabel(v, check);
      states := hyperedgeState[..];
    }

    /**
     * The callback at a node other than the root, on the state arrays:
     * the label it stores and the ghost records of the hyperedges it
     * places and seals, with the invariant for the updated labels.
     */
    method NodeUpdate(v: nat)
      returns (labelContent: seq<Hyperedge>, ghost idx: seq<nat>, ghost newIntroducedAt: map<nat, nat>,
               ghost newSealedAt: map<nat, nat>)
      requires Valid() && v < |d.bags| && v != d.root && v !in labels && d.root !in labels
      requires forall m :: 0 <= m < |d.children[v]| ==> d.children[v][m] in labels
      requires forall p :: p in labels ==> v !in d.children[p]
      modifies hyperedgeState, childHyperedgeState
      ensures Invariant(graph, d, labels[v := labelContent], labelIndices[v := idx], newIntroducedAt, newSealedAt,
                        hyperedgeState[..])
      ensures newIntroducedAt == Extend(introducedAt, Positions(idx), v)
      ensures forall k :: 0 <= k < |graph| ==>
        (k in idx <==> k !in introducedAt && CheckNeeded(d, v) && AllInside(graph[k].endpoints, d.bags[v]))
    {
      ghost var oldStates := hyperedgeState[..];
      ghost var sealedStates, states;
      labelContent, idx, sealedStates, states := NodeLabel(v, oldStates);
      UnplacedIffFresh(graph, d, labels, introducedAt, sealedAt, v, oldStates, sealedStates);
      ghost var introduced := Positions(idx);
      NodeStep(graph, d, labels, labelIndices, introducedAt, sealedAt, v, labelContent, idx, introduced,
               oldStates, sealedStates, states);
      newIntroducedAt := Extend(introducedAt, introduced, v);
      newSealedAt := Extend(sealedAt, NewlySealed(graph, d, introducedAt, v), v);
    }

    method VisitNode(v: nat)
      requires Valid() && v < |d.bags| && v != d.root && v !in labels && d.root !in labels
      requires forall m :: 0 <= m < |d.children[v]| ==> d.children[v][m] in labels
      requires forall p :: p in labels ==> v !in d.children[p]
      modifies this, hyperedgeState, childHyperedgeState
      ensures Valid()
      ensures v in labels && labels == old(labels)[v := labels[v]]
      ensures introducedAt == Extend(old(introducedAt), Positions(labelIndices[v]), v)
      ensures forall k :: 0 <= k < |graph| ==>
        (k in labelIndices[v] <==> k !in old(introducedAt) && CheckNeeded(d, v) && AllInside(graph[k].endpoints, d.bags[v]))
      ensures VisitPlaced(v, old(introducedAt))
    {
      var labelContent, idx, newIntroducedAt, newSealedAt := NodeUpdate(v);
      labels := labels[v := labelContent];
      labelIndices := labelIndices[v := idx];
      introducedAt := newIntroducedAt;
      sealedAt := newSealedAt;
    }

    /** The post-order traversal with the callback. */
    method Run(order: seq<nat>, retake: bool)
      requires Valid() && PostOrder(d, order) && labels == map[]
      modifies this, hyperedgeState, childHyperedgeState
      ensures Valid()
      ensures forall u: nat :: u in labels <==> u < |d.bags|
      ensures PlacedInOrder(graph, d, order, |order|, introducedAt)
      ensures RootHolds(retake)
    {
      var p := 0;
      while p < |order|
        invariant 0 <= p <= |order| && Valid()
        invariant labels.Keys == Visited(order, p)
        invariant PlacedInOrder(graph, d, order, p, introducedAt)
        invariant d.root in labels ==> RootHolds(retake)
      {
        Advance(order, p, retake);
        p := p + 1;
      }
      PostOrderCovers(d, order);
    }

    /** One iteration of the traversal: the callback on the node at position `p` of `order`. */
    method Advance(order: seq<nat>, p: nat, retake: bool)
      requires Valid() && PostOrder(d, order) && p < |order|
      requires labels.Keys == Visited(order, p)
      requires PlacedInOrder(graph, d, order, p, introducedAt)
      modifies this, hyperedgeState, childHyperedgeState
      ensures Valid()
      ensures labels.Keys == Visited(order, p + 1)
      ensures PlacedInOrder(graph, d, order, p + 1, introducedAt)
      ensures d.root in labels ==> RootHolds(retake)
    {
      PostOrderStep(d, order, p);
      VisitedStep(order, p);
      ghost var before := introducedAt;
      Visit(order[p], retake);
      PlacedStep(order, p, before);
    }

    /** The facts `apply` promises, from the state `Run` leaves. */
    lemma Conclude(order: seq<nat>)
      requires Valid() && forall u: nat :: u in labels <==> u < |d.bags|
      requires PlacedInOrder(graph, d, order, |order|, introducedAt) && RootHolds(true)
      ensures forall u :: u in labels ==> OrderedSubsequence(labels[u], graph)
      ensures forall u, e :: u in labels && u != d.root && e in labels[u] ==>
        u < |d.bags| && Elems(e.endpoints) <= Elems(d.bags[u]) && CheckNeeded(d, u)
      ensures forall u, w, e :: u in labels && w in labels && u != d.root && w != d.root && e in labels[u] && e in labels[w] ==>
        u == w
      ensures forall u, k :: u in labels && u != d.root && 0 <= k < |graph| ==>
        (graph[k] in labels[u] <==> Claimant(d, order, graph[k]) == Some(u))
      ensures forall k :: 0 <= k < |graph| ==> (graph[k] in labels[d.root] <==> !SealedInPass(d, labels, graph, k))
      ensures forall u, k ::
                (u in labels && u != d.root && 0 <= k < |graph| && graph[k] in labels[u] && NoParentSeals(d, u, graph[k])) ==>
                graph[k] in labels[d.root]
      ensures forall k :: 0 <= k < |graph| ==> exists u :: u in labels && graph[k] in labels[u]
    {
      LabelsOrdered(graph, d, labels, labelIndices);
      PlacedLabels(graph, d, labels, labelIndices, introducedAt, sealedAt, hyperedgeState[..]);
      RootLabel(graph, d, labels, labelIndices, introducedAt, sealedAt, hyperedgeState[..]);
      NonRootLabels(graph, d, labels, labelIndices, introducedAt, sealedAt, hyperedgeState[..], order);
      RootRetakesUnsealed(graph, d, labels, labelIndices, introducedAt, sealedAt, hyperedgeState[..]);
    }

    /** The facts of the corrected pass, from the state `Run` leaves when the root takes only unplaced hyperedges. */
    lemma ConcludeCorrected(order: seq<nat>)
      requires Valid() && forall u: nat :: u in labels <==> u < |d.bags|
      requires PlacedInOrder(graph, d, order, |order|, introducedAt) && RootHolds(false)
      ensures forall u :: u in labels ==> OrderedSubsequence(labels[u], graph)
      ensures forall u, e :: u in labels && u != d.root && e in labels[u] ==>
        u < |d.bags| && Elems(e.endpoints) <= Elems(d.bags[u]) && CheckNeeded(d, u)
      ensures forall u, k :: u in labels && 0 <= k < |graph| ==> (graph[k] in labels[u] <==> Owner(d, order, graph[k]) == u)
      ensures forall k :: 0 <= k < |graph| ==> Owner(d, order, graph[k]) in labels
    {
      LabelsOrdered(graph, d, labels, labelIndices);
      PlacedLabels(graph, d, labels, labelIndices, introducedAt, sealedAt, hyperedgeState[..]);
      ExactlyOneLabel(graph, d, labels, labelIndices, introducedAt, sealedAt, hyperedgeState[..], order);
    }

    /** The visit at position `p` of `order` keeps the placements those of the first fitting node. */
    lemma PlacedStep(order: seq<nat>, p: nat, before: map<nat, nat>)
      requires WellFormed(d) && p < |order| && order[p] < |d.bags|
      requires PlacedInOrder(graph, d, order, p, before) && VisitPlaced(order[p], before)
      ensures PlacedInOrder(graph, d, order, p + 1, introducedAt)
    {
      if order[p] != d.root {
        PlacedInOrderNode(graph, d, order, p, before, labelIndices[order[p]]);
      } else {
        PlacedInOrderRoot(graph, d, order, p, before);
      }
    }
  }

  /**
   * `apply` on a decomposition and a graph, given the post-order of the
   * traversal: every node gets a label. Each label lists graph hyperedges
   * in graph order. A node other than the root holds a hyperedge exactly
   * when it is the hyperedge's claimant: the first node of the order that
   * runs the subset check and whose bag holds the endpoints. So no
   * hyperedge is in the labels of two such nodes. The root's label holds
   * exactly the hyperedges that no parent sealed, which includes every
   * hyperedge held by a node that no parent other than the root seals.
   * Every hyperedge ends up in some label.
   */
  method Apply(graph: seq<Hyperedge>, d: Decomposition, order: seq<nat>) returns (labels: map<nat, seq<Hyperedge>>)
    requires WellFormed(d) && DistinctIds(graph) && PostOrder(d, order)
    ensures forall u: nat :: u in labels <==> u < |d.bags|
    ensures forall u :: u in labels ==> OrderedSubsequence(labels[u], graph)
    ensures forall u, e :: u in labels && u != d.root && e in labels[u] ==>
      u < |d.bags| && Elems(e.endpoints) <= Elems(d.bags[u]) && CheckNeeded(d, u)
    ensures forall u, w, e :: u in labels && w in labels && u != d.root && w != d.root && e in labels[u] && e in labels[w] ==>
      u == w
    ensures forall u, k :: u in labels && u != d.root && 0 <= k < |graph| ==>
      (graph[k] in labels[u] <==> Claimant(d, order, graph[k]) == Some(u))
    ensures forall k :: 0 <= k < |graph| ==> (graph[k] in labels[d.root] <==> !SealedInPass(d, labels, graph, k))
    ensures forall u, k ::
              (u in labels && u != d.root && 0 <= k < |graph| && graph[k] in labels[u] && NoParentSeals(d, u, graph[k])) ==>
              graph[k] in labels[d.root]
    ensures forall k :: 0 <= k < |graph| ==> exists u :: u in labels && graph[k] in labels[u]
  {
    var pass := new LabelingPass(graph, d);
    pass.Run(order, true);
    pass.Conclude(order);
    labels := pass.labels;
  }

  /**
   * `apply` with the root's loop corrected to take only the hyperedges
   * still in state 1. Every label lists graph hyperedges in graph order.
   * Every hyperedge is in exactly one label, its owner's: the first node
   * of the order that runs the subset check and whose bag holds its
   * endpoints, or the root when there is no such node.
   */
  method ApplyCorrected(graph: seq<Hyperedge>, d: Decomposition, order: seq<nat>) returns (labels: map<nat, seq<Hyperedge>>)
    requires WellFormed(d) && DistinctIds(graph) && PostOrder(d, order)
    ensures forall u: nat :: u in labels <==> u < |d.bags|
    ensures forall u :: u in labels ==> OrderedSubsequence(labels[u], graph)
    ensures forall u, e :: u in labels && u != d.root && e in labels[u] ==>
      u < |d.bags| && Elems(e.endpoints) <= Elems(d.bags[u]) && CheckNeeded(d, u)
    ensures forall u, k :: u in labels && 0 <= k < |graph| ==> (graph[k] in labels[u] <==> Owner(d, order, graph[k]) == u)
    ensures forall k :: 0 <= k < |graph| ==> Owner(d, order, graph[k]) in labels
  {
    var pass := new LabelingPass(graph, d);
    pass.Run(order, false);
    pass.ConcludeCorrected(order);
    labels := pass.labels;
  }

  /** A path decomposition: root 0 with bag {1, 2}, its child 1 with bag {2, 3}, and 1's child 2, a leaf with bag {3, 4}. */
  function ExamplePath(): Decomposition
  {
    Decomposition(0, [[1], [2], []], [[1, 2], [2, 3], [3, 4]])
  }

  /** The hyperedges {1, 2}, {2, 3} and {3, 4} of a path graph, with identifiers 0, 1 and 2. */
  function ExampleGraph(): seq<Hyperedge>
  {
    [Hyperedge(0, [1, 2]), Hyperedge(1, [2, 3]), Hyperedge(2, [3, 4])]
  }

  /**
   * On the path example, in post-order 2, 1, 0, the pass as written puts
   * hyperedge {2, 3} both in node 1's label and in the root's, because
   * node 1's parent is the root and nothing seals it. The corrected pass
   * puts it in node 1's label only.
   */
  method DoublePlacement() returns (asWritten: map<nat, seq<Hyperedge>>, corrected: map<nat, seq<Hyperedge>>)
    ensures 0 in asWritten && 1 in asWritten && ExampleGraph()[1] in asWritten[1] && ExampleGraph()[1] in asWritten[0]
    ensures 0 in corrected && 1 in corrected && ExampleGraph()[1] in corrected[1] && ExampleGraph()[1] !in corrected[0]
  {
    ExampleShape();
    ExampleClaim();
    asWritten := Apply(ExampleGraph(), ExamplePath(), [2, 1, 0]);
    corrected := ApplyCorrected(ExampleGraph(), ExamplePath(), [2, 1, 0]);
  }

  /** The path example is well formed, its identifiers are distinct, and 2, 1, 0 is its post-order. */
  lemma ExampleShape()
    ensures WellFormed(ExamplePath()) && DistinctIds(ExampleGraph()) && PostOrder(ExamplePath(), [2, 1, 0])
  {
    var d, order := ExamplePath(), [2, 1, 0];
    assert WellFormed(d);
    forall u | 0 <= u < |d.bags|
      ensures u in order
    {
      assert order[2 - u] == u;
    }
  }

  /**
   * In the path example, hyperedge {2, 3} is claimed by node 1: the leaf's
   * bag misses vertex 2, while node 1 runs the subset check (vertex 2 is
   * outside its child's bag) and holds both endpoints. Its only parent is
   * the root, so no other parent seals it.
   */
  lemma ExampleClaim()
    ensures WellFormed(ExamplePath())
    ensures Claimant(ExamplePath(), [2, 1, 0], ExampleGraph()[1]) == Some(1)
    ensures Owner(ExamplePath(), [2, 1, 0], ExampleGraph()[1]) == 1
    ensures NoParentSeals(ExamplePath(), 1, ExampleGraph()[1])
  {
    var d, e := ExamplePath(), ExampleGraph()[1];
    assert WellFormed(d);
    assert !AllInside(e.endpoints, d.bags[2]);
    assert SomeOutside(d.bags[1], d.bags[2]) && AllInside(e.endpoints, d.bags[1]);
    assert FirstFit(d, [2, 1, 0], e, 1) == None;
    assert FirstFit(d, [2, 1, 0], e, 2) == Some(1);
  }
}
