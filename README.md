# htd decomposition helpers, induced-subgraph labelling, path post-processing and normalization in Dafny

This project models four parts of htd, a C++ library for tree and path
decompositions of hypergraphs:

- **The sorted-set helpers** (`include/htd/Helpers.hpp`). These are merge walks over two
  or three sorted ranges. They count the union, the difference, both halves of the
  symmetric difference, or the intersection. They decide whether a difference or an
  intersection is non-empty. They count and build a union with a third range filtered
  out, and merge one vector into another in place. Ranges are `seq<int>`. "Sorted set"
  means strictly increasing (`SortedSets.StrictlyIncreasing`). Each helper is a method
  with the source's loop, proved against set expressions over `Elems` of its inputs.
  The standard algorithms they call (`std::set_union`, `std::set_difference`,
  `std::includes`, `std::inplace_merge`, `std::sort` with `std::unique`) are modelled
  in `SortedSets`.
- **The induced-subgraph labelling pass** (`src/htd/InducedSubgraphLabelingOperation.cpp`).
  It visits a decomposition in post-order and gives every node a label: a list of
  hyperedges of the graph. The class `InducedSubgraphLabelingPass.LabelingPass` holds
  the two state arrays of the source (`hyperedgeState`, `childHyperedgeState`). Ghost
  bookkeeping records where each hyperedge was introduced and sealed. The value-level
  invariant and its step lemmas are in `InducedSubgraphLabeling`. The final theorem
  (`InducedSubgraphLabelingPass.Apply`) says:
  - every label lists graph hyperedges in graph order;
  - a node other than the root holds exactly the hyperedges it *claims*: it is the
    first node of the post-order that runs the subset check and whose bag holds the
    hyperedge's endpoints (`InducedSubgraphLabeling.Claimant`). So a hyperedge sits at
    the first covering node the traversal reaches, not at the highest one;
  - a hyperedge is in at most one non-root label;
  - the root label holds exactly the hyperedges never sealed during the pass, so every
    hyperedge is in some label;
  - as a consequence, a hyperedge held by a non-root node that no non-root parent
    seals is also in the root's label.

  The first branch of the collecting loop (lines 139-142: a hyperedge still in state 1
  that a child's label passed up) never fires. A hyperedge in a child's label has
  already left state 1, so non-root labels never inherit from children. Together with
  the root's loop (lines 160-163), which takes every unsealed hyperedge and not only
  the unplaced ones, this puts some hyperedges in two labels; see "Findings". The
  corrected pass (`InducedSubgraphLabelingPass.ApplyCorrected`) puts every hyperedge
  in exactly one label.
- **The path post-processing driver** (`src/htd/PostProcessingPathDecompositionAlgorithm.cpp`).
  It flattens a tree decomposition into a path decomposition, and fails with a logic
  error when the tree branches. It sorts manipulation operations into a labelling
  list and a structural list by their capabilities. It applies the held operations
  and then the call-scoped ones, structural before labelling. The algorithm object is
  a class whose two lists the setters and adders reassign.
- **The normalization operation** (`src/htd/NormalizationOperation.cpp`). It runs four
  rewriting stages in a fixed order: semi-normalization, exchange-node replacement,
  forgotten-count limit 1, introduced-count limit 1. In the overload that tracks
  created and removed vertices, each stage is given the caller's relevant vertices
  followed by every vertex the earlier stages of the same call created. The stages
  themselves are a function parameter (`Normalization.Runner`).

`Outcomes` holds the `Option` and `Result` types used for error paths.

## Model

| member | source | states |
|---|---|---|
| SortedSets.CardElems | include/htd/Helpers.hpp:283-322 | a strictly increasing range has as many distinct elements as entries, which turns the helpers' counts into set cardinalities |
| SortedSets.UniqueSortedForm | include/htd/Helpers.hpp:639-710 | two strictly increasing ranges with the same elements are equal, so a sorted output is determined by its element set |
| SortedSets.SetUnion | include/htd/Helpers.hpp:650-652 | `std::set_union` on sorted sets yields a strictly increasing range holding exactly the elements of both |
| SortedSets.SetDifference | include/htd/Helpers.hpp:701-705 | `std::set_difference` yields a strictly increasing range holding exactly the elements of the first not in the second |
| SortedSets.Includes | src/htd/InducedSubgraphLabelingOperation.cpp:143 | `std::includes` answers true iff every element of the second sorted set is in the first |
| SortedSets.MergeRuns | include/htd/Helpers.hpp:719 | `std::inplace_merge` of two sorted runs with disjoint elements (as `inplace_set_union` produces them) yields a sorted range with the same length and elements |
| SortedSets.SortedUnique | src/htd/InducedSubgraphLabelingOperation.cpp:65-69 | sorting then removing adjacent duplicates gives a strictly increasing range with the same elements |
| SortedSets.Without | src/htd/InducedSubgraphLabelingOperation.cpp:106 | the forgotten vertices of a child are exactly its bag's vertices missing from the parent's bag, still sorted |
| SortedSets.AllInsideIff | src/htd/InducedSubgraphLabelingOperation.cpp:143 | the recursive subset test holds iff the first range's elements are a subset of the second's |
| SortedSets.SomeOutsideIff | src/htd/InducedSubgraphLabelingOperation.cpp:125 | the recursive test holds iff some element of the first range is not in the second, i.e. a child introduces a vertex |
| Helpers.SetUnionSize | include/htd/Helpers.hpp:283-322 | `compute_set_union_size` returns the size of the union of the two sets |
| Helpers.SetDifferenceSize | include/htd/Helpers.hpp:324-366 | `compute_set_difference_size` returns the size of the first set minus the second |
| Helpers.SymmetricDifferenceSizes | include/htd/Helpers.hpp:368-416 | the first count is the size of A minus B; the second counts the elements of B minus A below the last element of A, because the walk stops when A runs out |
| Helpers.SetIntersectionSize | include/htd/Helpers.hpp:418-460 | `compute_set_intersection_size` returns the size of the intersection |
| Helpers.HasNonEmptySetDifference | include/htd/Helpers.hpp:462-504 | true iff the first set is not a subset of the second |
| Helpers.MergeMeetsSound | include/htd/Helpers.hpp:506-548 | whenever the merge walk meets equal elements, the two ranges share an element, sorted or not |
| Helpers.MergeMeetsComplete | include/htd/Helpers.hpp:506-548 | on strictly increasing ranges, a shared element is always met by the walk |
| Helpers.HasNonEmptySetIntersection | include/htd/Helpers.hpp:506-548 | the loop returns what the merge walk meets; a true answer means a common element; on sorted sets true iff the intersection is non-empty |
| FilteredUnion.FilteredSetUnionSize | include/htd/Helpers.hpp:550-637 | as written: with an empty filter, the union size; otherwise `None` exactly when the walk dereferences past the end of set 2 or the filter, and else the size of the union minus the filter |
| FilteredUnion.ReadsPastEndExamples | include/htd/Helpers.hpp:569-587 | concrete inputs for which the written walk reads past the end of set 2 or of the filter |
| FilteredUnion.FilteredSetUnionSizeGuarded | include/htd/Helpers.hpp:550-637 | with end checks added, the count is always the size of the union minus the filter |
| FilteredUnion.FilteredSetUnion | include/htd/Helpers.hpp:639-710 | `filtered_set_union` writes a strictly increasing range holding exactly the union minus the filter; an empty filter gives the plain union |
| FilteredUnion.InplaceSetUnion | include/htd/Helpers.hpp:712-720 | `inplace_set_union` leaves set 1 strictly increasing, holding both sets' elements, grown by the number of elements of set 2 not in set 1 |
| InducedSubgraphLabeling.Preprocess | src/htd/InducedSubgraphLabelingOperation.cpp:59-76 | one copy per hyperedge with the same identifier and sorted duplicate-free endpoints over the same vertices; each identifier is mapped to the last position that carries it |
| InducedSubgraphLabeling.IndexedSubsequence | src/htd/InducedSubgraphLabelingOperation.cpp:133-150 | a label built from strictly increasing graph positions is an order-preserving subsequence of the graph's hyperedges |
| InducedSubgraphLabeling.NodeStep | src/htd/InducedSubgraphLabelingOperation.cpp:94-150 | visiting a non-root node keeps the whole pass invariant (labels indexed, placements, sealing sound and complete, state array agreeing) |
| InducedSubgraphLabeling.RootStep | src/htd/InducedSubgraphLabelingOperation.cpp:154-168 | visiting the root with every state set to 3 keeps the pass invariant |
| InducedSubgraphLabeling.PostOrderCovers | src/htd/InducedSubgraphLabelingOperation.cpp:81-83 | a post-order traversal visits exactly the nodes of the decomposition |
| InducedSubgraphLabeling.LabelMember | src/htd/InducedSubgraphLabelingOperation.cpp:106-108 | a hyperedge is in a node's label iff its graph position is among the label's recorded positions |
| InducedSubgraphLabeling.PlacedLabels | src/htd/InducedSubgraphLabelingOperation.cpp:133-150 | a non-root label holds only hyperedges inside the node's bag and only when that node runs the check; no hyperedge is in two non-root labels |
| InducedSubgraphLabeling.RootLabel | src/htd/InducedSubgraphLabelingOperation.cpp:154-168 | the root label holds a hyperedge iff no non-root parent sealed it from a child's label; every hyperedge lands in some label |
| InducedSubgraphLabeling.LabelsOrdered | src/htd/InducedSubgraphLabelingOperation.cpp:133-167 | every label lists hyperedges in the graph's order |
| InducedSubgraphLabeling.FirstFitFirst | src/htd/InducedSubgraphLabelingOperation.cpp:133-150 | the search along the order finds a position whose node fits the hyperedge (not the root, runs the check, bag holds the endpoints) with no fitting position before it, or reports that none fits |
| InducedSubgraphLabeling.ClaimantFirst | src/htd/InducedSubgraphLabelingOperation.cpp:133-150 | the claimant is a fitting node that comes before every other fitting node of the order; there is none iff no node of the order fits |
| InducedSubgraphLabeling.PlacedInOrderNode | src/htd/InducedSubgraphLabelingOperation.cpp:137-148 | a non-root visit that places exactly the unplaced hyperedges it fits keeps every placement at the first fitting node of the order so far |
| InducedSubgraphLabeling.PlacedInOrderRoot | src/htd/InducedSubgraphLabelingOperation.cpp:154-168 | the root places nothing and fits nothing, so the placements stay those of the first fitting node |
| InducedSubgraphLabeling.NonRootLabels | src/htd/InducedSubgraphLabelingOperation.cpp:83-152 | after the whole traversal a non-root node holds a hyperedge iff it is the hyperedge's claimant |
| InducedSubgraphLabeling.RootRetakesUnsealed | src/htd/InducedSubgraphLabelingOperation.cpp:158-163 | as written, a hyperedge held by a non-root node that no non-root parent seals is also in the root's label |
| InducedSubgraphLabeling.ExactlyOneLabel | src/htd/InducedSubgraphLabelingOperation.cpp:158-163 | when the root takes only unplaced hyperedges, every hyperedge is in exactly one label, its owner's (claimant, or the root without one) |
| InducedSubgraphLabelingPass.LabelingPass.constructor | src/htd/InducedSubgraphLabelingOperation.cpp:57-79 | after preprocessing, both state arrays are all 1 and no node is labelled |
| InducedSubgraphLabelingPass.LabelingPass.ScanChildren | src/htd/InducedSubgraphLabelingOperation.cpp:96-131 | the returned flag is exactly whether the check is needed (leaf, or last child introduces a vertex); the two state arrays end as the per-child verdicts say |
| InducedSubgraphLabelingPass.LabelingPass.ScanChild | src/htd/InducedSubgraphLabelingOperation.cpp:102-123 | one child's label moves each hyperedge's state to the verdict of the intersection test with the forgotten vertices |
| InducedSubgraphLabelingPass.LabelingPass.ScanEntry | src/htd/InducedSubgraphLabelingOperation.cpp:106-121 | one label entry updates only its own hyperedge's two states, as the verdict says |
| InducedSubgraphLabelingPass.LabelingPass.CollectLabel | src/htd/InducedSubgraphLabelingOperation.cpp:133-150 | the non-root label holds, in graph order, exactly the hyperedges still in state 1 that lie inside the bag, and only when the check runs; those become state 2. The inheritance branch (lines 139-142) cannot fire, because a hyperedge with child verdict 2 has already left state 1 |
| InducedSubgraphLabelingPass.LabelingPass.CollectRootLabel | src/htd/InducedSubgraphLabelingOperation.cpp:154-167 | the root label holds, in graph order, exactly the hyperedges whose state was below 3; afterwards every state is 3 |
| InducedSubgraphLabelingPass.LabelingPass.NodeLabel | src/htd/InducedSubgraphLabelingOperation.cpp:94-150 | scan then collect: the label and the new states as functions of the old states, the newly sealed hyperedges and the introduced ones |
| InducedSubgraphLabelingPass.LabelingPass.Visit | src/htd/InducedSubgraphLabelingOperation.cpp:83-171 | one callback: the invariant is kept, exactly the visited node gains a label, earlier labels are unchanged; a non-root node's label holds exactly the hyperedges unplaced before the visit that lie inside its bag when it runs the check, and those are placed there; the root places nothing and its label is the never-sealed set (or, without `retake`, the unplaced set) |
| InducedSubgraphLabelingPass.LabelingPass.VisitRoot | src/htd/InducedSubgraphLabelingOperation.cpp:154-170 | the root's label is the set of hyperedges never sealed; no placement changes |
| InducedSubgraphLabelingPass.LabelingPass.VisitNode | src/htd/InducedSubgraphLabelingOperation.cpp:94-170 | a non-root node gains its label, which holds exactly the hyperedges unplaced before the visit that lie inside its bag when it runs the check; they are placed at it; the invariant is kept |
| InducedSubgraphLabelingPass.LabelingPass.Advance | src/htd/InducedSubgraphLabelingOperation.cpp:81-171 | one traversal step labels the next node of the post-order and keeps every placement at the first fitting node so far |
| InducedSubgraphLabelingPass.LabelingPass.Run | src/htd/InducedSubgraphLabelingOperation.cpp:81-171 | the traversal labels every node, places every hyperedge at its claimant (if any), and leaves the root label as the never-sealed set (or, without `retake`, the unplaced set) |
| InducedSubgraphLabelingPass.LabelingPass.Conclude | src/htd/InducedSubgraphLabelingOperation.cpp:53-173 | from the state the traversal leaves: graph-ordered labels, non-root labels inside bags and disjoint, each non-root label exactly its claimed hyperedges, root label the never-sealed set, the root retaking unsealed placed hyperedges, every hyperedge in some label |
| InducedSubgraphLabelingPass.Apply | src/htd/InducedSubgraphLabelingOperation.cpp:53-173 | every node labelled; labels are graph-ordered; non-root labels lie inside bags and are disjoint; a non-root node holds a hyperedge iff it is its claimant; root label = hyperedges never sealed; a non-root hyperedge no non-root parent seals is also in the root label; every hyperedge in some label |
| InducedSubgraphLabelingPass.LabelingPass.CollectUnplacedRootLabel | src/htd/InducedSubgraphLabelingOperation.cpp:156-168 | corrected root loop: the label holds, in graph order, exactly the hyperedges still in state 1; afterwards every state is 3 |
| InducedSubgraphLabelingPass.LabelingPass.VisitRootCorrected | src/htd/InducedSubgraphLabelingOperation.cpp:154-170 | corrected root visit: the root's label is exactly the set of hyperedges no other node took; the invariant is kept |
| InducedSubgraphLabelingPass.LabelingPass.ConcludeCorrected | src/htd/InducedSubgraphLabelingOperation.cpp:53-173 | for the corrected pass: graph-ordered labels, non-root labels inside bags, and every hyperedge in exactly the label of its owner |
| InducedSubgraphLabelingPass.ApplyCorrected | src/htd/InducedSubgraphLabelingOperation.cpp:53-173 | the corrected pass labels every node in graph order, non-root labels lie inside bags, and each hyperedge is in exactly one label: its claimant's, or the root's when no node claims it |
| InducedSubgraphLabelingPass.ExampleClaim | src/htd/InducedSubgraphLabelingOperation.cpp:133-150 | on the three-node path, hyperedge {2, 3} is claimed by the middle node and no non-root parent can seal it |
| InducedSubgraphLabelingPass.DoublePlacement | src/htd/InducedSubgraphLabelingOperation.cpp:133-168 | on the three-node path, the pass as written puts {2, 3} in the middle node's label and in the root's; the corrected pass only in the middle node's |
| PostProcessingPathDecomposition.ChainEndsAtLeafIffPath | src/htd/PostProcessingPathDecompositionAlgorithm.cpp:207-225 | the unique-child walk stops at a leaf iff the tree is a path, i.e. the logic error is thrown iff the tree branches |
| PostProcessingPathDecomposition.ChainLinks | src/htd/PostProcessingPathDecompositionAlgorithm.cpp:207-211 | along the walk each node has the next one as its only child, so the walk follows unique children from the root |
| PostProcessingPathDecomposition.ChainCoversPath | src/htd/PostProcessingPathDecompositionAlgorithm.cpp:195-220 | on a path, the walk visits every node of the tree and nothing else |
| PostProcessingPathDecomposition.ToPathDecomposition | src/htd/PostProcessingPathDecompositionAlgorithm.cpp:187-229 | an empty tree gives an empty path; otherwise success iff the tree is a path, and then the path copies the nodes root first |
| PostProcessingPathDecomposition.SelectedMembers | src/htd/PostProcessingPathDecompositionAlgorithm.cpp:240-255 | an operation is in a selected list iff it is among the operations and has that capability |
| PostProcessingPathDecomposition.SelectedAppend | src/htd/PostProcessingPathDecompositionAlgorithm.cpp:257-275 | selecting from a concatenation is concatenating the selections, so adding operations in batches keeps their order |
| PostProcessingPathDecomposition.Classify | src/htd/PostProcessingPathDecompositionAlgorithm.cpp:119-134 | the call-scoped operations split into labelling functions and structural operations, each in order; one with both capabilities joins both |
| PostProcessingPathDecomposition.RelabelledAppend | src/htd/PostProcessingPathDecompositionAlgorithm.cpp:158-172 | applying labelling functions in two batches equals applying them all in order |
| PostProcessingPathDecomposition.TransformedAppend | src/htd/PostProcessingPathDecompositionAlgorithm.cpp:136-144 | applying structural operations in two batches equals applying them all in order |
| PostProcessingPathDecomposition.RelabelledFrame | src/htd/PostProcessingPathDecompositionAlgorithm.cpp:146-172 | labelling keeps the number of vertices and their bags, and leaves labels under names no labelling function carries unchanged |
| PostProcessingPathDecomposition.LastWriterWins | src/htd/PostProcessingPathDecompositionAlgorithm.cpp:146-172 | the final label under a function's name is what the last function with that name computed from the bag and the labels it saw |
| PostProcessingPathDecomposition.LabelVertices | src/htd/PostProcessingPathDecompositionAlgorithm.cpp:148-157 | one labelling function sets its label on every vertex from that vertex's bag and labels |
| PostProcessingPathDecomposition.ApplyLabelingFunctions | src/htd/PostProcessingPathDecompositionAlgorithm.cpp:146-172 | the labelling functions are applied one after the other, each to every vertex |
| PostProcessingPathDecomposition.ApplyOperations | src/htd/PostProcessingPathDecompositionAlgorithm.cpp:136-144 | the structural operations are applied one after the other |
| PostProcessingPathDecomposition.PostProcessingPathDecompositionAlgorithm.constructor | src/htd/PostProcessingPathDecompositionAlgorithm.cpp:41-44 | a new algorithm holds no operations |
| PostProcessingPathDecomposition.PostProcessingPathDecompositionAlgorithm.WithOperations | src/htd/PostProcessingPathDecompositionAlgorithm.cpp:46-49 | a new algorithm holds the given operations sorted by capability |
| PostProcessingPathDecomposition.PostProcessingPathDecompositionAlgorithm.SetManipulationOperations | src/htd/PostProcessingPathDecompositionAlgorithm.cpp:231-238 | both lists are replaced by the given operations sorted by capability |
| PostProcessingPathDecomposition.PostProcessingPathDecompositionAlgorithm.AddManipulationOperation | src/htd/PostProcessingPathDecompositionAlgorithm.cpp:240-255 | the operation is appended to each list whose capability it has and nothing else changes |
| PostProcessingPathDecomposition.PostProcessingPathDecompositionAlgorithm.AddManipulationOperations | src/htd/PostProcessingPathDecompositionAlgorithm.cpp:257-275 | each list is extended by the given operations having its capability, in order |
| PostProcessingPathDecomposition.PostProcessingPathDecompositionAlgorithm.IsSafelyInterruptible | src/htd/PostProcessingPathDecompositionAlgorithm.cpp:277-280 | the algorithm reports that it is not safely interruptible |
| PostProcessingPathDecomposition.PostProcessingPathDecompositionAlgorithm.Clone | src/htd/PostProcessingPathDecompositionAlgorithm.cpp:282-299 | as written: the copy's lists are the selection by capability of all held labelling functions followed by all held structural operations |
| PostProcessingPathDecomposition.PostProcessingPathDecompositionAlgorithm.CloneCorrected | src/htd/PostProcessingPathDecompositionAlgorithm.cpp:282-299 | a fresh copy holding exactly the same two lists |
| PostProcessingPathDecomposition.PostProcessingPathDecompositionAlgorithm.ComputeDecomposition | src/htd/PostProcessingPathDecompositionAlgorithm.cpp:87-185 | success iff the (compressed, join-free) tree is a path; then the result is the flattened path, transformed by the held then the call's structural operations, then labelled by the held then the call's labelling functions |
| PostProcessingPathDecomposition.CloneDuplicatesDualOperation | src/htd/PostProcessingPathDecompositionAlgorithm.cpp:282-299 | an algorithm holding one operation with both capabilities is copied with that operation twice in each list |
| PostProcessingPathDecomposition.CloneDuplicatesOnObject | src/htd/PostProcessingPathDecompositionAlgorithm.cpp:282-299 | an algorithm object built with one operation of both capabilities holds it once per list, and its `Clone` holds it twice per list |
| PostProcessingPathDecomposition.CloneFaithfulWithoutDualOperations | src/htd/PostProcessingPathDecompositionAlgorithm.cpp:282-299 | when no held operation has both capabilities, the written `clone` reproduces both lists exactly |
| Normalization.InTurnCalls | src/htd/NormalizationOperation.cpp:62-106 | in the path and untracked tree overloads every stage is called in order with the same relevant vertices and labelling functions |
| Normalization.ChainedRelevant | src/htd/NormalizationOperation.cpp:141-194 | in the tracked overload stage k receives the caller's relevant vertices followed by exactly what stages 0..k-1 created, a prefix of everything the call appends |
| Normalization.TakeNewVertices | src/htd/NormalizationOperation.cpp:151-158 | the vertices appended since the saved count join the relevant list, and the count moves to the list's length |
| Normalization.TrackedStage | src/htd/NormalizationOperation.cpp:160-164 | one stage call extends the run by that stage and leaves the relevant list one update away from the next stage's input |
| Normalization.NormalizationOperation.IsLocalOperation | src/htd/NormalizationOperation.cpp:197-200 | the operation reports itself local |
| Normalization.NormalizationOperation.CreatesTreeNodes | src/htd/NormalizationOperation.cpp:202-205 | it reports that it creates nodes |
| Normalization.NormalizationOperation.RemovesTreeNodes | src/htd/NormalizationOperation.cpp:207-210 | it reports that it removes no nodes |
| Normalization.NormalizationOperation.ModifiesBagContents | src/htd/NormalizationOperation.cpp:212-215 | it reports that it does not modify bags |
| Normalization.NormalizationOperation.CreatesSubsetMaximalBags | src/htd/NormalizationOperation.cpp:217-220 | it reports that it does not create subset-maximal bags |
| Normalization.NormalizationOperation.CreatesLocationDependendLabels | src/htd/NormalizationOperation.cpp:222-225 | it reports no location-dependent labels |
| Normalization.NormalizationOperation.LeafNodesTreatedAsIntroduceNodes | src/htd/NormalizationOperation.cpp:227-230 | it reports the leaf flag it was built with |
| Normalization.NormalizationOperation.Clone | src/htd/NormalizationOperation.cpp:232-239 | the copy rebuilt from the accessors equals the original |
| Normalization.NormalizationOperation.ApplyToPathLabeled | src/htd/NormalizationOperation.cpp:62-83 | the four path stages in order, without relevant vertices, the last one without the leaf flag |
| Normalization.NormalizationOperation.ApplyToPathRelevant | src/htd/NormalizationOperation.cpp:85-106 | the four path stages in order, each with the caller's relevant vertices unchanged |
| Normalization.NormalizationOperation.ApplyToPath | src/htd/NormalizationOperation.cpp:52-55 | as the labelled path overload with no labelling functions |
| Normalization.NormalizationOperation.ApplyToPathRelevantOnly | src/htd/NormalizationOperation.cpp:57-60 | as the relevant-vertex path overload with no labelling functions |
| Normalization.NormalizationOperation.ApplyToTreeLabeled | src/htd/NormalizationOperation.cpp:118-139 | the four tree stages in order, without relevant vertices, the last one with the leaf flag |
| Normalization.NormalizationOperation.ApplyToTree | src/htd/NormalizationOperation.cpp:108-111 | as the labelled tree overload with no labelling functions |
| Normalization.NormalizationOperation.ApplyToTreeTracked | src/htd/NormalizationOperation.cpp:141-195 | the four tree stages chained: the result, the created and removed lists extended by what the stages append, and the calls are those of the chained run |
| Normalization.NormalizationOperation.ApplyToTreeTrackedUnlabeled | src/htd/NormalizationOperation.cpp:113-116 | as the tracked overload with no labelling functions |
| Normalization.DefaultOperation | src/htd/NormalizationOperation.cpp:35-39 | the default operation has the semi-normalization defaults and does not treat leaves as introduce nodes |

## Left out

- Input and output, `print`, timing (`printDuration`), hashing and `accessLabel` in `include/htd/Helpers.hpp` are outside the set helpers and not modelled.
- Iterator ranges are sequences of integers, and the element type is `int`. Results written through output iterators are returned as sequences.
- FilteredUnion.InplaceSetUnion: returns the new contents of `set1` instead of updating the vector in place. Aliasing between the two arguments is therefore not modelled.
- FilteredUnion.InplaceSetUnion: at `include/htd/Helpers.hpp:717`, `std::set_difference` reads `set1` through iterators taken before the call while `std::back_inserter(set1)` appends to the same vector. When an append reallocates, those iterators dangle, which is undefined behaviour in C++. The model computes the difference against the contents `set1` had on entry, which is what happens when the capacity suffices.
- FilteredUnion.FilteredSetUnion: the source's return value (line 709) is `result` advanced only by the writes of its own merge loop. The calls to `std::set_union` (line 650) and `std::set_difference` (lines 701 and 705) write through `result` but discard the iterator they return. So with an empty filter the returned iterator is the initial one, and otherwise it stops before the tail. The model returns the written sequence and no iterator, so it does not capture that stale position.
- Helpers.HasNonEmptySetIntersection: the if-and-only-if holds only for sorted inputs. On unsorted inputs, which the labelling pass passes at line 112, only soundness is stated.
- InducedSubgraphLabelingPass.Apply: requires distinct hyperedge identifiers. With repeated identifiers the source's index map aliases two hyperedges, and that behaviour is not modelled.
- InducedSubgraphLabelingPass.Apply: the post-order produced by `PostOrderTreeTraversal` is an input. It is constrained to visit every node once, children before parents and the root last.
- The path overload (lines 53-173) and the tree overload (lines 180-300) of the labelling pass have the same body. They are modelled once, on a rooted decomposition given by bags and child lists.
- The decomposition's `forgottenVertices` and `introducedVertexCount` are computed from the bags (`Without`, `SomeOutside`). The decomposition classes that provide them are not part of this model.
- The label object, its `ConstCollection` wrapper and memory management are not modelled. Labels are sequences of hyperedges in a map from node to label.
- `PostProcessingPathDecomposition.ComputeDecomposition` takes the tree decomposition that the factory's tree decomposition algorithm produces after compression and join-node replacement. Those three steps are external and not part of this model.
- The `computeLabel` of labelling functions and the `apply` of path-manipulation operations are function parameters (`Compute`, `Transform`).
- An operation's capabilities (the two `dynamic_cast`s) are two flags on `Operation`.
- The variadic `computeDecomposition` overload (lines 69-85) and the graph-only overload (lines 64-67) are not modelled, and neither is the destructor (lines 51-62). The double `delete` that the destructor performs on an operation held in both lists is a memory effect outside this model. `computeDecomposition` does the same at lines 174-182: it deletes both call-scoped lists, and `PostProcessingPathDecomposition.Classify` puts an operation with both capabilities into both of them, so that operation is deleted twice.
- PostProcessingPathDecomposition.ToPathDecomposition: a path vertex receives its tree node's bag together with its labels. The source (lines 187-229) creates each path vertex without a bag (`insertRoot`, `addChild`) and then copies, through `setVertexLabel`, every label the tree node carries under a name in `labelNames`. The model assumes the bag is one of those labels, because the decomposition classes that store bags are not part of this model. Every label a node carries is copied, i.e. the tree's `labelNames` are taken to be all names in use.
- The management instance passed to stages and copies is not modelled.
- The four normalization stages are not part of this model. They are the `Runner` parameter, which returns the new decomposition and the vertices a stage appends to the created and removed lists. A stage that shrinks `createdVertices` is not modelled; the source would then underflow `createdVertices.size() - oldCreatedVerticesCount`.
- Labelling functions handed to the normalization stages are identified by name (`Normalization.LabelingFunction`).
- Normalization.DefaultOperation: the semi-normalization's default settings are a parameter, because `SemiNormalizationOperation.cpp` is not part of this model.
- The four-argument normalization constructor (lines 41-45) is the datatype constructor `Normalization.NormalizationOperation`.

## Findings

| source | as written | input that shows it | evidently intended | confidence | as-written member | corrected member |
|---|---|---|---|---|---|---|
| include/htd/Helpers.hpp:569-587 | with a non-empty filter, the first loop dereferences the current elements of set 2 and the filter (`*firstSet2`, `*tmp1`) while checking only that set 1 is not exhausted | set 1 = [5], set 2 = [], filter = [1] (reads the empty set 2); set 1 = [5], set 2 = [10], filter = [1] (reads past the filter's end after skipping 1) | stop or switch loops when set 2 or the filter is exhausted, returning the size of the union minus the filter | not executed | FilteredUnion.FilteredSetUnionSize | FilteredUnion.FilteredSetUnionSizeGuarded |
| src/htd/InducedSubgraphLabelingOperation.cpp:139-163 | the collecting loop's inheritance branch (139-142) can never fire, and the root's loop (160-163) takes every hyperedge not sealed, including those a non-root node already holds when no non-root parent seals them | a path with root bag {1, 2}, middle bag {2, 3} and leaf bag {3, 4}, hyperedges {1, 2}, {2, 3}, {3, 4}, post-order leaf, middle, root: {2, 3} lands in the middle node's label and in the root's | every hyperedge in exactly one label; the root takes only the hyperedges no other node took (state 1) | not executed | InducedSubgraphLabelingPass.DoublePlacement | InducedSubgraphLabelingPass.ApplyCorrected |
| src/htd/PostProcessingPathDecompositionAlgorithm.cpp:282-299 | `clone` re-adds every held labelling function and every held structural operation through `addManipulationOperation`, which puts an operation with both capabilities into both lists again | an algorithm holding one operation that is both a labelling function and a path-manipulation operation | the copy holds the same two lists as the original | not executed | PostProcessingPathDecomposition.CloneDuplicatesDualOperation | PostProcessingPathDecomposition.PostProcessingPathDecompositionAlgorithm.CloneCorrected |
