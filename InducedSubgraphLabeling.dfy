/**
 * The induced-subgraph labelling pass of htd
 * (src/htd/InducedSubgraphLabelingOperation.cpp). It visits the nodes of a
 * tree or path decomposition in post-order and gives each node a label: a
 * list of the graph's hyperedges. Two state arrays drive it. For every
 * hyperedge, `hyperedgeState` is 1 (not yet placed), 2 (placed at a node)
 * or 3 (sealed). `childHyperedgeState` holds the same kind of verdict, but
 * only for the children of the node being visited.
 *
 * The tree and path overloads of `apply` have the same body. One model
 * serves both: a decomposition given by its children lists and bags.
 */
module InducedSubgraphLabeling {
  import opened SortedSets
  import opened Helpers
  import opened Outcomes

  /** A hyperedge: its identifier and its endpoints, in the graph's order and possibly repeated. */
  datatype Hyperedge = Hyperedge(id: int, endpoints: seq<int>)

  /** A decomposition: the root, each node's children and each node's bag, indexed by node. */
  datatype Decomposition = Decomposition(root: nat, children: seq<seq<nat>>, bags: seq<seq<int>>)

  /** Every child is a node, the root is nobody's child, and every bag is sorted and duplicate-free. */
  predicate WellFormed(d: Decomposition) {
    |d.children| == |d.bags| && d.root < |d.bags| &&
    (forall u :: 0 <= u < |d.bags| ==> StrictlyIncreasing(d.bags[u])) &&
    (forall u, m :: 0 <= u < |d.children| && 0 <= m < |d.children[u]| ==>
      d.children[u][m] < |d.bags| && d.children[u][m] != d.root)
  }

  /** The graph gives each hyperedge its own identifier. */
  predicate DistinctIds(graph: seq<Hyperedge>) {
    forall k1, k2 :: 0 <= k1 < k2 < |graph| ==> graph[k1].id != graph[k2].id
  }

  /**
   * A post-order of the whole decomposition, as the traversal produces it:
   * every node exactly once, every child before its parent, the root last.
   */
  predicate PostOrder(d: Decomposition, order: seq<nat>)
    requires WellFormed(d)
  {
    |order| > 0 && order[|order| - 1] == d.root &&
    (forall p :: 0 <= p < |order| ==> order[p] < |d.bags|) &&
    (forall u :: 0 <= u < |d.bags| ==> u in order) &&
    (forall p, q :: 0 <= p < q < |order| ==> order[p] != order[q]) &&
    (forall p, q, m ::
      (0 <= p < |order| && 0 <= q < |order| && 0 <= m < |d.children[order[p]]| &&
       d.children[order[p]][m] == order[q]) ==>
      q < p)
  }

  /** The vertices forgotten between child `c` and its parent `v`: those of `c`'s bag missing from `v`'s. */
  function Forgotten(d: Decomposition, v: nat, c: nat): seq<int>
    requires v < |d.bags| && c < |d.bags|
  {
    Without(d.bags[c], d.bags[v])
  }

  /**
   * The test that seals a hyperedge of child `c`'s label when its parent
   * `v` is visited: some vertices are forgotten, and the intersection walk
   * over the hyperedge's original endpoints meets one of them.
   */
  predicate Seals(d: Decomposition, v: nat, c: nat, endpoints: seq<int>)
    requires v < |d.bags| && c < |d.bags|
  {
    |Forgotten(d, v, c)| > 0 && MergeMeets(endpoints, Forgotten(d, v, c))
  }

  /**
   * Whether a non-root node runs the subset check. A leaf always does. An
   * inner node does iff the child iterated last introduces a vertex, i.e.
   * the node's bag has a vertex outside that child's bag. Only the last
   * child counts, because the flag is overwritten for each child.
   */
  predicate CheckNeeded(d: Decomposition, v: nat)
    requires WellFormed(d) && v < |d.bags|
  {
    |d.children[v]| == 0 ||
    SomeOutside(d.bags[v], d.bags[d.children[v][|d.children[v]| - 1]])
  }

  /** No parent of `u` other than the root seals hyperedge `e` when it is visited. */
  predicate NoParentSeals(d: Decomposition, u: nat, e: Hyperedge)
    requires WellFormed(d) && u < |d.bags|
  {
    forall p :: 0 <= p < |d.bags| && p != d.root && u in d.children[p] ==> !Seals(d, p, u, e.endpoints)
  }

  /**
   * Whether node `u` takes hyperedge `e` when `e` is still unplaced on
   * reaching it: `u` is not the root, runs the subset check, and its bag
   * holds every endpoint of `e`.
   */
  predicate Fits(d: Decomposition, u: nat, e: Hyperedge)
    requires WellFormed(d)
  {
    u < |d.bags| && u != d.root && CheckNeeded(d, u) && AllInside(e.endpoints, d.bags[u])
  }

  /** The first position before `n` in `order` whose node fits `e`, if there is one. */
  function FirstFit(d: Decomposition, order: seq<nat>, e: Hyperedge, n: nat): (r: Option<nat>)
    requires WellFormed(d) && n <= |order|
    ensures r.Some? ==> r.value < n
  {
    if n == 0 then None
    else if FirstFit(d, order, e, n - 1).Some? then FirstFit(d, order, e, n - 1)
    else if Fits(d, order[n - 1], e) then Some(n - 1)
    else None
  }

  /** `FirstFit` finds a fitting position before `n`, with no fitting position before it, or reports that none fits. */
  lemma {:induction false} FirstFitFirst(d: Decomposition, order: seq<nat>, e: Hyperedge, n: nat)
    requires WellFormed(d) && n <= |order|
    ensures FirstFit(d, order, e, n).Some? ==>
      FirstFit(d, order, e, n).value < n && Fits(d, order[FirstFit(d, order, e, n).value], e) &&
      forall q :: 0 <= q < FirstFit(d, order, e, n).value ==> !Fits(d, order[q], e)
    ensures FirstFit(d, order, e, n).None? ==> forall q :: 0 <= q < n ==> !Fits(d, order[q], e)
  {
    if n > 0 {
      FirstFitFirst(d, order, e, n - 1);
    }
  }

  /**
   * The node that claims `e` in the traversal `order`: the first node of
   * the order that fits it, or none when no node does.
   */
  function Claimant(d: Decomposition, order: seq<nat>, e: Hyperedge): Option<nat>
    requires WellFormed(d)
  {
    var f := FirstFit(d, order, e, |order|);
    if f.Some? then Some(order[f.value]) else None
  }

  /** The node whose label should hold `e`: its claimant, or the root when nothing claims it. */
  function Owner(d: Decomposition, order: seq<nat>, e: Hyperedge): nat
    requires WellFormed(d)
  {
    match Claimant(d, order, e)
    case Some(u) => u
    case None => d.root
  }

  /**
   * The claimant of `e` is a node that fits it and comes before every
   * other node of `order` that fits it; there is none iff no node of the
   * order fits it.
   */
  lemma ClaimantFirst(d: Decomposition, order: seq<nat>, e: Hyperedge)
    requires WellFormed(d)
    ensures Claimant(d, order, e).None? <==> forall q :: 0 <= q < |order| ==> !Fits(d, order[q], e)
    ensures Claimant(d, order, e).Some? ==> Fits(d, Claimant(d, order, e).value, e)
    ensures Claimant(d, order, e).Some? ==>
              exists q :: 0 <= q < |order| && order[q] == Claimant(d, order, e).value &&
                forall q' :: 0 <= q' < q ==> !Fits(d, order[q'], e)
  {
    FirstFitFirst(d, order, e, |order|);
  }

  /**
   * The preprocessing step of `apply`. For each hyperedge, in graph order,
   * it stores a copy whose endpoints are sorted and duplicate-free. It maps
   * each identifier to a position; when an identifier repeats, the last
   * position wins.
   */
  method Preprocess(graph: seq<Hyperedge>) returns (hyperedges: seq<Hyperedge>, indices: map<int, nat>)
    ensures |hyperedges| == |graph|
    ensures forall k :: 0 <= k < |graph| ==>
      hyperedges[k].id == graph[k].id && StrictlyIncreasing(hyperedges[k].endpoints) &&
      Elems(hyperedges[k].endpoints) == Elems(graph[k].endpoints)
    ensures forall k :: 0 <= k < |graph| ==> graph[k].id in indices
    ensures forall id :: id in indices ==>
      indices[id] < |graph| && graph[indices[id]].id == id &&
      forall k :: indices[id] < k < |graph| ==> graph[k].id != id
  {
    var index: nat := 0;
    hyperedges, indices := [], map[];
    while index < |graph|
      invariant index <= |graph| && |hyperedges| == index
      invariant forall k :: 0 <= k < index ==>
        hyperedges[k].id == graph[k].id && StrictlyIncreasing(hyperedges[k].endpoints) &&
        Elems(hyperedges[k].endpoints) == Elems(graph[k].endpoints)
      invariant forall k :: 0 <= k < index ==> graph[k].id in indices
      invariant forall id :: id in indices ==>
        indices[id] < index && graph[indices[id]].id == id &&
        forall k :: indices[id] < k < index ==> graph[k].id != id
    {
      var hyperedge := graph[index];
      var elements := SortedUnique(hyperedge.endpoints);
      hyperedges := hyperedges + [Hyperedge(hyperedge.id, elements)];
      indices := indices[hyperedge.id := index];
      index := index + 1;
    }
  }

  /** With distinct identifiers, the map sends every hyperedge's identifier to its own position. */
  lemma PreprocessedIndex(graph: seq<Hyperedge>, indices: map<int, nat>, k: int)
    requires DistinctIds(graph) && 0 <= k < |graph| && graph[k].id in indices
    requires indices[graph[k].id] < |graph| && graph[indices[graph[k].id]].id == graph[k].id
    ensures indices[graph[k].id] == k
  {
  }

  /** `s` lists some entries of `t`, in the order of `t`, each position of `t` used at most once. */
  predicate OrderedSubsequence(s: seq<Hyperedge>, t: seq<Hyperedge>)
    decreases |t|
  {
    if |s| == 0 then true
    else if |t| == 0 then false
    else if s[0] == t[0] then OrderedSubsequence(s[1..], t[1..])
    else OrderedSubsequence(s, t[1..])
  }

  /** Every position moved one place towards the front. */
  function Lowered(idx: seq<nat>): (r: seq<nat>)
    requires forall m :: 0 <= m < |idx| ==> idx[m] > 0
    ensures |r| == |idx| && forall m :: 0 <= m < |idx| ==> r[m] + 1 == idx[m]
    ensures StrictlyIncreasing(idx) ==> StrictlyIncreasing(r)
  {
    seq(|idx|, m requires 0 <= m < |idx| => idx[m] - 1)
  }

  /** Picking the entries of `t` at strictly increasing positions gives an ordered subsequence. */
  lemma {:induction false} IndexedSubsequence(s: seq<Hyperedge>, t: seq<Hyperedge>, idx: seq<nat>)
    requires |s| == |idx| && StrictlyIncreasing(idx)
    requires forall m :: 0 <= m < |idx| ==> idx[m] < |t| && s[m] == t[idx[m]]
    ensures OrderedSubsequence(s, t)
    decreases |t|
  {
    if |s| > 0 {
      assert idx[0] < |t|;
      if idx[0] == 0 || s[0] == t[0] {
        forall m | 0 <= m < |idx| - 1
          ensures idx[1..][m] > 0
        {
          assert idx[0] < idx[m + 1];
        }
        var rest := Lowered(idx[1..]);
        forall m | 0 <= m < |rest|
          ensures rest[m] < |t[1..]| && s[1..][m] == t[1..][rest[m]]
        {
          assert idx[m + 1] == rest[m] + 1;
        }
        IndexedSubsequence(s[1..], t[1..], rest);
      } else {
        forall m | 0 <= m < |idx|
          ensures idx[m] > 0
        {
          assert idx[0] <= idx[m];
        }
        var all := Lowered(idx);
        forall m | 0 <= m < |all|
          ensures all[m] < |t[1..]| && s[m] == t[1..][all[m]]
        {
          assert idx[m] == all[m] + 1;
        }
        IndexedSubsequence(s, t[1..], all);
      }
    }
  }

  /** The first `m` entries of `s`, or all of `s` when it is shorter. */
  function Prefix(s: seq<nat>, m: nat): seq<nat>
  {
    if m <= |s| then s[..m] else s
  }

  /** Whether hyperedge `k` is sealed during the pass: a parent other than the root finds it in a child's label and seals it. */
  ghost predicate SealedInPass(d: Decomposition, labels: map<nat, seq<Hyperedge>>, graph: seq<Hyperedge>, k: int)
    requires WellFormed(d) && 0 <= k < |graph|
  {
    exists p, m :: 0 <= p < |d.bags| && p != d.root && 0 <= m < |d.children[p]| &&
      d.children[p][m] in labels && graph[k] in labels[d.children[p][m]] &&
      Seals(d, p, d.children[p][m], graph[k].endpoints)
  }

  /**
   * Every label lists graph hyperedges: the entry at label position `m`
   * of node `u` is the hyperedge at graph position `labelIndices[u][m]`,
   * and these positions strictly increase.
   */
  ghost predicate Indexed(graph: seq<Hyperedge>, d: Decomposition, labels: map<nat, seq<Hyperedge>>,
                          labelIndices: map<nat, seq<nat>>)
  {
    labels.Keys == labelIndices.Keys &&
    forall u :: u in labelIndices ==>
      u < |d.bags| && |labels[u]| == |labelIndices[u]| && StrictlyIncreasing(labelIndices[u]) &&
      forall m :: 0 <= m < |labelIndices[u]| ==>
        labelIndices[u][m] < |graph| && labels[u][m] == graph[labelIndices[u][m]]
  }

  /**
   * `introducedAt` maps each placed hyperedge to the node whose label
   * holds it. That node is not the root, its bag holds the hyperedge's
   * endpoints, and it runs the subset check. Apart from the root's, every
   * label holds exactly the hyperedges placed there.
   */
  ghost predicate PlacedAt(graph: seq<Hyperedge>, d: Decomposition, labelIndices: map<nat, seq<nat>>,
                           introducedAt: map<nat, nat>)
    requires WellFormed(d)
  {
    (forall k :: k in introducedAt ==>
      k < |graph| && introducedAt[k] < |d.bags| && introducedAt[k] != d.root &&
      introducedAt[k] in labelIndices && k in labelIndices[introducedAt[k]] &&
      AllInside(graph[k].endpoints, d.bags[introducedAt[k]]) && CheckNeeded(d, introducedAt[k])) &&
    (forall u, m :: u in labelIndices && u != d.root && 0 <= m < |labelIndices[u]| ==>
      labelIndices[u][m] in introducedAt && introducedAt[labelIndices[u][m]] == u)
  }

  /**
   * `sealedAt` maps each sealed hyperedge to the parent that sealed it.
   * That parent is labelled, is not the root, has the placing node as a
   * child, and passes the sealing test.
   */
  ghost predicate SealedSound(graph: seq<Hyperedge>, d: Decomposition, labels: map<nat, seq<Hyperedge>>,
                              introducedAt: map<nat, nat>, sealedAt: map<nat, nat>)
    requires WellFormed(d)
  {
    forall k :: k in sealedAt ==>
      k < |graph| && k in introducedAt && sealedAt[k] in labels && sealedAt[k] < |d.bags| &&
      sealedAt[k] != d.root && introducedAt[k] < |d.bags| && introducedAt[k] in d.children[sealedAt[k]] &&
      Seals(d, sealedAt[k], introducedAt[k], graph[k].endpoints)
  }

  /** No sealing by a labelled parent other than the root is missing from `sealedAt`. */
  ghost predicate SealedComplete(graph: seq<Hyperedge>, d: Decomposition, labels: map<nat, seq<Hyperedge>>,
                                 introducedAt: map<nat, nat>, sealedAt: map<nat, nat>)
    requires WellFormed(d)
  {
    forall p, k ::
      (p in labels && p < |d.bags| && p != d.root && k in introducedAt && k < |graph| &&
       introducedAt[k] in d.children[p] && Seals(d, p, introducedAt[k], graph[k].endpoints)) ==>
      k in sealedAt
  }

  /** The sealing record: sound and complete. */
  ghost predicate SealedBy(graph: seq<Hyperedge>, d: Decomposition, labels: map<nat, seq<Hyperedge>>,
                           introducedAt: map<nat, nat>, sealedAt: map<nat, nat>)
    requires WellFormed(d)
  {
    SealedSound(graph, d, labels, introducedAt, sealedAt) && SealedComplete(graph, d, labels, introducedAt, sealedAt)
  }

  /**
   * States lie in 1..3, and every placed hyperedge has left state 1.
   * Before the root is visited, a state of 2 or more means "placed" and a
   * state of 3 means "sealed".
   */
  ghost predicate StatesBy(graph: seq<Hyperedge>, d: Decomposition, labels: map<nat, seq<Hyperedge>>,
                           introducedAt: map<nat, nat>, sealedAt: map<nat, nat>, states: seq<int>)
  {
    |states| == |graph| &&
    (forall k :: 0 <= k < |states| ==> 1 <= states[k] <= 3) &&
    (forall k :: k in introducedAt && k < |states| ==> states[k] >= 2) &&
    (d.root !in labels ==> forall k :: 0 <= k < |states| ==>
      (states[k] >= 2 ==> k in introducedAt) && (states[k] == 3 <==> k in sealedAt))
  }

  /** The invariant of the pass between two visits, on values. */
  ghost predicate Invariant(graph: seq<Hyperedge>, d: Decomposition, labels: map<nat, seq<Hyperedge>>,
                            labelIndices: map<nat, seq<nat>>, introducedAt: map<nat, nat>, sealedAt: map<nat, nat>,
                            states: seq<int>)
  {
    WellFormed(d) && Indexed(graph, d, labels, labelIndices) && PlacedAt(graph, d, labelIndices, introducedAt) &&
    SealedBy(graph, d, labels, introducedAt, sealedAt) && StatesBy(graph, d, labels, introducedAt, sealedAt, states)
  }

  /** The graph positions a label lists. */
  function Positions(idx: seq<nat>): set<nat> {
    set m | 0 <= m < |idx| :: idx[m]
  }

  /** `m` with every key of `keys` that `m` lacks sent to `v`. */
  function Extend(m: map<nat, nat>, keys: set<nat>, v: nat): (r: map<nat, nat>)
    ensures r.Keys == m.Keys + keys
    ensures forall k :: k in m ==> r[k] == m[k]
    ensures forall k :: k in keys && k !in m ==> r[k] == v
  {
    map k | k in m.Keys + keys :: if k in m then m[k] else v
  }

  /** The hyperedges a non-root node `v` seals: placed at a child of `v` and passing the sealing test. */
  ghost function NewlySealed(graph: seq<Hyperedge>, d: Decomposition, introducedAt: map<nat, nat>, v: nat): set<nat>
    requires WellFormed(d) && v < |d.bags|
  {
    set k: nat | k < |graph| && k in introducedAt && introducedAt[k] in d.children[v] &&
      Seals(d, v, introducedAt[k], graph[k].endpoints)
  }

  /** Storing a new label keeps the labels indexed. */
  lemma IndexedStep(graph: seq<Hyperedge>, d: Decomposition, labels: map<nat, seq<Hyperedge>>,
                    labelIndices: map<nat, seq<nat>>, v: nat, content: seq<Hyperedge>, idx: seq<nat>)
    requires Indexed(graph, d, labels, labelIndices) && v < |d.bags|
    requires |content| == |idx| && StrictlyIncreasing(idx)
    requires forall m :: 0 <= m < |idx| ==> idx[m] < |graph| && content[m] == graph[idx[m]]
    ensures Indexed(graph, d, labels[v := content], labelIndices[v := idx])
  {
  }

  /** Every position of `idx` names an unplaced hyperedge that passes the subset check at `v`. */
  ghost predicate Placeable(graph: seq<Hyperedge>, d: Decomposition, introducedAt: map<nat, nat>, v: nat, idx: seq<nat>)
    requires WellFormed(d) && v < |d.bags|
  {
    forall m :: 0 <= m < |idx| ==>
      idx[m] < |graph| && idx[m] !in introducedAt && CheckNeeded(d, v) &&
      AllInside(graph[idx[m]].endpoints, d.bags[v])
  }

  /**
   * Placing, at a fresh node `v` other than the root, hyperedges that
   * were not placed before and that pass the subset check keeps the
   * placement record.
   */
  lemma PlacedStep(graph: seq<Hyperedge>, d: Decomposition, labelIndices: map<nat, seq<nat>>,
                   introducedAt: map<nat, nat>, v: nat, idx: seq<nat>)
    requires WellFormed(d) && PlacedAt(graph, d, labelIndices, introducedAt)
    requires v < |d.bags| && v != d.root && v !in labelIndices
    requires Placeable(graph, d, introducedAt, v, idx)
    ensures PlacedAt(graph, d, labelIndices[v := idx], Extend(introducedAt, Positions(idx), v))
  {
    var indices := labelIndices[v := idx];
    var placed := Extend(introducedAt, Positions(idx), v);
    PlacedNodes(graph, d, labelIndices, introducedAt, v, idx, indices, placed);
    PlacedEntries(graph, d, labelIndices, introducedAt, v, idx, indices, placed);
  }

  /** After placing `idx` at `v`, every placed hyperedge sits in the label of its node, inside that node's bag. */
  lemma PlacedNodes(graph: seq<Hyperedge>, d: Decomposition, labelIndices: map<nat, seq<nat>>,
                    introducedAt: map<nat, nat>, v: nat, idx: seq<nat>,
                    indices: map<nat, seq<nat>>, placed: map<nat, nat>)
    requires WellFormed(d) && PlacedAt(graph, d, labelIndices, introducedAt)
    requires v < |d.bags| && v != d.root && v !in labelIndices
    requires Placeable(graph, d, introducedAt, v, idx)
    requires indices == labelIndices[v := idx] && placed == Extend(introducedAt, Positions(idx), v)
    ensures forall k :: k in placed ==>
      k < |graph| && placed[k] < |d.bags| && placed[k] != d.root &&
      placed[k] in indices && k in indices[placed[k]] &&
      AllInside(graph[k].endpoints, d.bags[placed[k]]) && CheckNeeded(d, placed[k])
  {
    forall k | k in placed
      ensures k < |graph| && placed[k] < |d.bags| && placed[k] != d.root &&
        placed[k] in indices && k in indices[placed[k]] &&
        AllInside(graph[k].endpoints, d.bags[placed[k]]) && CheckNeeded(d, placed[k])
    {
      if k !in introducedAt {
        var m :| 0 <= m < |idx| && idx[m] == k;
      }
    }
  }

  /** After placing `idx` at the fresh node `v`, every entry of a non-root label is placed at that label's node. */
  lemma PlacedEntries(graph: seq<Hyperedge>, d: Decomposition, labelIndices: map<nat, seq<nat>>,
                      introducedAt: map<nat, nat>, v: nat, idx: seq<nat>,
                      indices: map<nat, seq<nat>>, placed: map<nat, nat>)
    requires WellFormed(d) && PlacedAt(graph, d, labelIndices, introducedAt)
    requires v !in labelIndices
    requires forall m :: 0 <= m < |idx| ==> idx[m] !in introducedAt
    requires indices == labelIndices[v := idx] && placed == Extend(introducedAt, Positions(idx), v)
    ensures forall u, m :: u in indices && u != d.root && 0 <= m < |indices[u]| ==>
      indices[u][m] in placed && placed[indices[u][m]] == u
  {
    forall u, m | u in indices && u != d.root && 0 <= m < |indices[u]|
      ensures indices[u][m] in placed && placed[indices[u][m]] == u
    {
      if u == v {
        assert idx[m] in Positions(idx);
      }
    }
  }

  /**
   * The hyperedges the subset check picks at a fresh non-root node `v`
   * were in state 1, so none was placed before; placing them there keeps
   * the placement record.
   */
  lemma NodePlaced(graph: seq<Hyperedge>, d: Decomposition, labelIndices: map<nat, seq<nat>>,
                   introducedAt: map<nat, nat>, v: nat, idx: seq<nat>, sealedStates: seq<int>)
    requires WellFormed(d) && PlacedAt(graph, d, labelIndices, introducedAt)
    requires v < |d.bags| && v != d.root && v !in labelIndices
    requires forall m :: 0 <= m < |idx| ==> idx[m] < |graph|
    requires |sealedStates| == |graph|
    requires forall k :: k in introducedAt && k < |graph| ==> sealedStates[k] >= 2
    requires forall k :: 0 <= k < |graph| ==>
      (k in idx <==> sealedStates[k] == 1 && CheckNeeded(d, v) && AllInside(graph[k].endpoints, d.bags[v]))
    ensures PlacedAt(graph, d, labelIndices[v := idx], Extend(introducedAt, Positions(idx), v))
  {
    forall m | 0 <= m < |idx|
      ensures idx[m] < |graph| && idx[m] !in introducedAt && CheckNeeded(d, v) &&
        AllInside(graph[idx[m]].endpoints, d.bags[v])
    {
      assert idx[m] in idx;
    }
    PlacedStep(graph, d, labelIndices, introducedAt, v, idx);
  }

  /**
   * Labelling a fresh node `v` other than the root and recording the
   * hyperedges it seals keeps the sealing record sound.
   */
  lemma SealedSoundStep(graph: seq<Hyperedge>, d: Decomposition, labels: map<nat, seq<Hyperedge>>,
                        introducedAt: map<nat, nat>, sealedAt: map<nat, nat>, v: nat, content: seq<Hyperedge>,
                        introduced: set<nat>)
    requires WellFormed(d) && SealedSound(graph, d, labels, introducedAt, sealedAt)
    requires forall k :: k in introducedAt ==> k < |graph| && introducedAt[k] < |d.bags|
    requires v < |d.bags| && v != d.root
    requires forall k :: k in introduced ==> k !in introducedAt
    ensures SealedSound(graph, d, labels[v := content], Extend(introducedAt, introduced, v),
                        Extend(sealedAt, NewlySealed(graph, d, introducedAt, v), v))
  {
    var newly := NewlySealed(graph, d, introducedAt, v);
    var placed := Extend(introducedAt, introduced, v);
    var sealed := Extend(sealedAt, newly, v);
    forall k | k in sealed
      ensures k < |graph| && k in placed && sealed[k] in labels[v := content] && sealed[k] < |d.bags| &&
        sealed[k] != d.root && placed[k] < |d.bags| && placed[k] in d.children[sealed[k]] &&
        Seals(d, sealed[k], placed[k], graph[k].endpoints)
    {
      if k in sealedAt {
        assert sealed[k] == sealedAt[k] && placed[k] == introducedAt[k];
      } else {
        assert k in newly;
        assert sealed[k] == v && placed[k] == introducedAt[k];
      }
    }
  }

  /**
   * Labelling a fresh node `v` other than the root, with no labelled
   * parent and not its own child, and recording the hyperedges it seals,
   * keeps the sealing record complete.
   */
  lemma SealedCompleteStep(graph: seq<Hyperedge>, d: Decomposition, labels: map<nat, seq<Hyperedge>>,
                           introducedAt: map<nat, nat>, sealedAt: map<nat, nat>, v: nat, content: seq<Hyperedge>,
                           introduced: set<nat>)
    requires WellFormed(d) && SealedComplete(graph, d, labels, introducedAt, sealedAt)
    requires forall k :: k in introducedAt ==> k < |graph| && introducedAt[k] < |d.bags|
    requires v < |d.bags| && v != d.root && v !in d.children[v]
    requires forall p :: p in labels && p < |d.bags| ==> v !in d.children[p]
    requires forall k :: k in introduced ==> k !in introducedAt
    ensures SealedComplete(graph, d, labels[v := content], Extend(introducedAt, introduced, v),
                           Extend(sealedAt, NewlySealed(graph, d, introducedAt, v), v))
  {
    var newly := NewlySealed(graph, d, introducedAt, v);
    var placed := Extend(introducedAt, introduced, v);
    var sealed := Extend(sealedAt, newly, v);
    forall p, k |
      p in labels[v := content] && p < |d.bags| && p != d.root && k in placed && k < |graph| &&
      placed[k] in d.children[p] && Seals(d, p, placed[k], graph[k].endpoints)
      ensures k in sealed
    {
      if k in introducedAt && p == v {
        assert k in newly;
      }
    }
  }

  /**
   * At a node `v` other than the root, the state after sealing (`sealedStates`)
   * and after collecting (`states`) keeps the state record.
   */
  lemma StatesStep(graph: seq<Hyperedge>, d: Decomposition, labels: map<nat, seq<Hyperedge>>,
                   introducedAt: map<nat, nat>, sealedAt: map<nat, nat>, v: nat, content: seq<Hyperedge>,
                   oldStates: seq<int>, sealedStates: seq<int>, states: seq<int>,
                   newly: set<nat>, introduced: set<nat>)
    requires StatesBy(graph, d, labels, introducedAt, sealedAt, oldStates) && d.root !in labels && v != d.root
    requires |sealedStates| == |graph| && |states| == |graph|
    requires forall k :: k in newly ==> k < |graph| && k in introducedAt
    requires forall k :: 0 <= k < |graph| ==> sealedStates[k] == if k in newly then 3 else oldStates[k]
    requires forall k :: k in introduced ==> k < |graph| && sealedStates[k] == 1
    requires forall k :: 0 <= k < |graph| ==> states[k] == if k in introduced then 2 else sealedStates[k]
    ensures StatesBy(graph, d, labels[v := content], Extend(introducedAt, introduced, v),
                     Extend(sealedAt, newly, v), states)
  {
  }

  /**
   * Before the root is visited, a hyperedge still in state 1 once `v`'s
   * children are sealed is exactly one that no node has taken yet.
   */
  lemma UnplacedIffFresh(graph: seq<Hyperedge>, d: Decomposition, labels: map<nat, seq<Hyperedge>>,
                         introducedAt: map<nat, nat>, sealedAt: map<nat, nat>, v: nat,
                         oldStates: seq<int>, sealedStates: seq<int>)
    requires WellFormed(d) && v < |d.bags| && d.root !in labels
    requires StatesBy(graph, d, labels, introducedAt, sealedAt, oldStates)
    requires |sealedStates| == |graph|
    requires forall k :: 0 <= k < |graph| ==>
      sealedStates[k] == if k in NewlySealed(graph, d, introducedAt, v) then 3 else oldStates[k]
    ensures forall k :: 0 <= k < |graph| ==> (sealedStates[k] == 1 <==> k !in introducedAt)
  {
  }

  /**
   * One visit of a node `v` other than the root, stated on values. From
   * the old records and states and the outcome of the two loops, the
   * records extended with `v`'s label, its placements and its sealings
   * satisfy the invariant again.
   */
  lemma NodeStep(graph: seq<Hyperedge>, d: Decomposition, labels: map<nat, seq<Hyperedge>>,
                 labelIndices: map<nat, seq<nat>>, introducedAt: map<nat, nat>, sealedAt: map<nat, nat>,
                 v: nat, content: seq<Hyperedge>, idx: seq<nat>, introduced: set<nat>,
                 oldStates: seq<int>, sealedStates: seq<int>, states: seq<int>)
    requires WellFormed(d)
    requires Indexed(graph, d, labels, labelIndices) && PlacedAt(graph, d, labelIndices, introducedAt)
    requires SealedBy(graph, d, labels, introducedAt, sealedAt)
    requires StatesBy(graph, d, labels, introducedAt, sealedAt, oldStates)
    requires v < |d.bags| && v != d.root && v !in labels && d.root !in labels
    requires forall m :: 0 <= m < |d.children[v]| ==> d.children[v][m] in labels
    requires forall p :: p in labels && p < |d.bags| ==> v !in d.children[p]
    requires |content| == |idx| && StrictlyIncreasing(idx)
    requires forall m :: 0 <= m < |idx| ==> idx[m] < |graph| && content[m] == graph[idx[m]]
    requires introduced == Positions(idx)
    requires |sealedStates| == |graph| && |states| == |graph|
    requires forall k :: 0 <= k < |graph| ==>
      sealedStates[k] == if k in NewlySealed(graph, d, introducedAt, v) then 3 else oldStates[k]
    requires forall k :: 0 <= k < |graph| ==>
      (k in idx <==> sealedStates[k] == 1 && CheckNeeded(d, v) && AllInside(graph[k].endpoints, d.bags[v]))
    requires forall k :: 0 <= k < |graph| ==> states[k] == if k in idx then 2 else sealedStates[k]
    ensures Invariant(graph, d, labels[v := content], labelIndices[v := idx], Extend(introducedAt, introduced, v),
                      Extend(sealedAt, NewlySealed(graph, d, introducedAt, v), v), states)
  {
    var newly := NewlySealed(graph, d, introducedAt, v);
    forall k | k in introduced
      ensures k < |graph| && k in idx && k !in introducedAt && sealedStates[k] == 1
    {
      var m :| 0 <= m < |idx| && idx[m] == k;
    }
    assert v !in d.children[v] by {
      forall m | 0 <= m < |d.children[v]|
        ensures d.children[v][m] != v
      {
      }
    }
    assert forall k :: k in introducedAt && k < |graph| ==> sealedStates[k] >= 2;
    IndexedStep(graph, d, labels, labelIndices, v, content, idx);
    NodePlaced(graph, d, labelIndices, introducedAt, v, idx, sealedStates);
    SealedSoundStep(graph, d, labels, introducedAt, sealedAt, v, content, introduced);
    SealedCompleteStep(graph, d, labels, introducedAt, sealedAt, v, content, introduced);
    StatesStep(graph, d, labels, introducedAt, sealedAt, v, content,
               oldStates, sealedStates, states, newly, introduced);
  }

  /**
   * Storing the root's label, with every state moved to 3, keeps the
   * placement, sealing and state records.
   */
  lemma RootStep(graph: seq<Hyperedge>, d: Decomposition, labels: map<nat, seq<Hyperedge>>,
                 labelIndices: map<nat, seq<nat>>, introducedAt: map<nat, nat>, sealedAt: map<nat, nat>,
                 content: seq<Hyperedge>, idx: seq<nat>, oldStates: seq<int>, states: seq<int>)
    requires Invariant(graph, d, labels, labelIndices, introducedAt, sealedAt, oldStates)
    requires |content| == |idx| && StrictlyIncreasing(idx)
    requires forall m :: 0 <= m < |idx| ==> idx[m] < |graph| && content[m] == graph[idx[m]]
    requires |states| == |graph| && forall k :: 0 <= k < |states| ==> states[k] == 3
    ensures Invariant(graph, d, labels[d.root := content], labelIndices[d.root := idx], introducedAt, sealedAt, states)
  {
    IndexedStep(graph, d, labels, labelIndices, d.root, content, idx);
  }

  /** The nodes of `order` before position `p`. */
  function Visited(order: seq<nat>, p: nat): set<nat>
    requires p <= |order|
  {
    set q | 0 <= q < p :: order[q]
  }

  /** One more position visits one more node. */
  lemma VisitedStep(order: seq<nat>, p: nat)
    requires p < |order|
    ensures Visited(order, p + 1) == Visited(order, p) + {order[p]}
  {
  }

  /**
   * When the traversal reaches position `p`, that node is new, the root
   * is still unvisited unless it is this node, every child of the node is
   * already visited, and no visited node is its parent.
   */
  lemma PostOrderStep(d: Decomposition, order: seq<nat>, p: nat)
    requires WellFormed(d) && PostOrder(d, order) && p < |order|
    ensures order[p] !in Visited(order, p) && d.root !in Visited(order, p)
    ensures forall m :: 0 <= m < |d.children[order[p]]| ==> d.children[order[p]][m] in Visited(order, p)
    ensures forall u :: u in Visited(order, p) ==> order[p] !in d.children[u]
  {
    var v := order[p];
    forall m | 0 <= m < |d.children[v]|
      ensures d.children[v][m] in Visited(order, p)
    {
      var c := d.children[v][m];
      assert c < |d.bags| && c in order;
      var q :| 0 <= q < |order| && order[q] == c;
    }
    forall u | u in Visited(order, p)
      ensures v !in d.children[u]
    {
      var q :| 0 <= q < p && order[q] == u;
    }
  }

  /** A whole post-order visits exactly the nodes of the decomposition. */
  lemma PostOrderCovers(d: Decomposition, order: seq<nat>)
    requires WellFormed(d) && PostOrder(d, order)
    ensures forall u: nat :: u in Visited(order, |order|) <==> u < |d.bags|
  {
    forall u: nat | u < |d.bags|
      ensures u in Visited(order, |order|)
    {
      assert u in order;
      var q :| 0 <= q < |order| && order[q] == u;
    }
  }

  /** A position is among a label's positions iff the label lists it. */
  lemma PositionsMember(idx: seq<nat>, k: nat)
    ensures k in Positions(idx) <==> k in idx
  {
    if k in idx {
      var m :| 0 <= m < |idx| && idx[m] == k;
    }
  }

  /**
   * The placements after the first `p` visits of `order`: a hyperedge is
   * placed iff one of those nodes fits it, and it is placed at the first
   * of them that does.
   */
  ghost predicate PlacedInOrder(graph: seq<Hyperedge>, d: Decomposition, order: seq<nat>, p: nat,
                                introducedAt: map<nat, nat>)
    requires WellFormed(d) && p <= |order|
  {
    forall k :: 0 <= k < |graph| ==>
      (k in introducedAt <==> FirstFit(d, order, graph[k], p).Some?) &&
      (k in introducedAt ==> introducedAt[k] == order[FirstFit(d, order, graph[k], p).value])
  }

  /**
   * Visiting a node other than the root places exactly the unplaced
   * hyperedges it fits, which keeps the placements those of the first
   * fitting node.
   */
  lemma PlacedInOrderNode(graph: seq<Hyperedge>, d: Decomposition, order: seq<nat>, p: nat,
                          introducedAt: map<nat, nat>, idx: seq<nat>)
    requires WellFormed(d) && p < |order| && order[p] < |d.bags| && order[p] != d.root
    requires PlacedInOrder(graph, d, order, p, introducedAt)
    requires forall k :: 0 <= k < |graph| ==>
      (k in idx <==> k !in introducedAt && CheckNeeded(d, order[p]) && AllInside(graph[k].endpoints, d.bags[order[p]]))
    ensures PlacedInOrder(graph, d, order, p + 1, Extend(introducedAt, Positions(idx), order[p]))
  {
    var placed := Extend(introducedAt, Positions(idx), order[p]);
    forall k | 0 <= k < |graph|
      ensures (k in placed <==> FirstFit(d, order, graph[k], p + 1).Some?) &&
              (k in placed ==> placed[k] == order[FirstFit(d, order, graph[k], p + 1).value])
    {
      PositionsMember(idx, k);
    }
  }

  /** Visiting the root places nothing, and the root fits nothing. */
  lemma PlacedInOrderRoot(graph: seq<Hyperedge>, d: Decomposition, order: seq<nat>, p: nat,
                          introducedAt: map<nat, nat>)
    requires WellFormed(d) && p < |order| && order[p] == d.root
    requires PlacedInOrder(graph, d, order, p, introducedAt)
    ensures PlacedInOrder(graph, d, order, p + 1, introducedAt)
  {
    forall k | 0 <= k < |graph|
      ensures FirstFit(d, order, graph[k], p + 1) == FirstFit(d, order, graph[k], p)
    {
      assert !Fits(d, order[p], graph[k]);
    }
  }

  /** With distinct identifiers, a hyperedge is in a label iff its position is among the label's positions. */
  lemma LabelMember(graph: seq<Hyperedge>, d: Decomposition, labels: map<nat, seq<Hyperedge>>,
                    labelIndices: map<nat, seq<nat>>, u: nat, k: nat)
    requires Indexed(graph, d, labels, labelIndices) && DistinctIds(graph)
    requires u in labels && k < |graph|
    ensures graph[k] in labels[u] <==> k in labelIndices[u]
  {
    if graph[k] in labels[u] {
      var m :| 0 <= m < |labels[u]| && labels[u][m] == graph[k];
      var j := labelIndices[u][m];
      assert graph[j].id == graph[k].id;
    }
    if k in labelIndices[u] {
      var m :| 0 <= m < |labelIndices[u]| && labelIndices[u][m] == k;
      assert labels[u][m] == graph[k];
    }
  }

  /**
   * The labels outside the root hold only hyperedges whose endpoints lie
   * in the node's bag, at nodes that run the subset check; and no
   * hyperedge is in two of them.
   */
  lemma PlacedLabels(graph: seq<Hyperedge>, d: Decomposition, labels: map<nat, seq<Hyperedge>>,
                     labelIndices: map<nat, seq<nat>>, introducedAt: map<nat, nat>, sealedAt: map<nat, nat>,
                     states: seq<int>)
    requires Invariant(graph, d, labels, labelIndices, introducedAt, sealedAt, states) && DistinctIds(graph)
    ensures forall u, e :: u in labels && u != d.root && e in labels[u] ==>
      u < |d.bags| && Elems(e.endpoints) <= Elems(d.bags[u]) && CheckNeeded(d, u)
    ensures forall u, w, e :: u in labels && w in labels && u != d.root && w != d.root && e in labels[u] && e in labels[w] ==>
      u == w
  {
    forall u, e | u in labels && u != d.root && e in labels[u]
      ensures u < |d.bags| && Elems(e.endpoints) <= Elems(d.bags[u]) && CheckNeeded(d, u)
    {
      var m :| 0 <= m < |labels[u]| && labels[u][m] == e;
      assert labelIndices[u][m] in introducedAt;
      AllInsideIff(e.endpoints, d.bags[u]);
    }
    forall u, w, e | u in labels && w in labels && u != d.root && w != d.root && e in labels[u] && e in labels[w]
      ensures u == w
    {
      var m1 :| 0 <= m1 < |labels[u]| && labels[u][m1] == e;
      var m2 :| 0 <= m2 < |labels[w]| && labels[w][m2] == e;
      var k1, k2 := labelIndices[u][m1], labelIndices[w][m2];
      assert graph[k1].id == graph[k2].id;
      assert k1 == k2;
      assert introducedAt[k1] == u && introducedAt[k2] == w;
    }
  }

  /**
   * Once every node is labelled, and the root's label holds exactly the
   * unsealed hyperedges, a hyperedge is in the root's label iff no parent
   * sealed it, and every hyperedge is in some label.
   */
  lemma RootLabel(graph: seq<Hyperedge>, d: Decomposition, labels: map<nat, seq<Hyperedge>>,
                  labelIndices: map<nat, seq<nat>>, introducedAt: map<nat, nat>, sealedAt: map<nat, nat>,
                  states: seq<int>)
    requires Invariant(graph, d, labels, labelIndices, introducedAt, sealedAt, states) && DistinctIds(graph)
    requires forall u: nat :: u in labels <==> u < |d.bags|
    requires forall k :: 0 <= k < |graph| ==> (k in labelIndices[d.root] <==> k !in sealedAt)
    ensures forall k :: 0 <= k < |graph| ==> (graph[k] in labels[d.root] <==> !SealedInPass(d, labels, graph, k))
    ensures forall k :: 0 <= k < |graph| ==> exists u :: u in labels && graph[k] in labels[u]
  {
    forall k | 0 <= k < |graph|
      ensures graph[k] in labels[d.root] <==> !SealedInPass(d, labels, graph, k)
    {
      LabelMember(graph, d, labels, labelIndices, d.root, k);
      if k in sealedAt {
        var p, c := sealedAt[k], introducedAt[k];
        var m :| 0 <= m < |d.children[p]| && d.children[p][m] == c;
        LabelMember(graph, d, labels, labelIndices, c, k);
        assert SealedInPass(d, labels, graph, k);
      } else if SealedInPass(d, labels, graph, k) {
        var p, m :| 0 <= p < |d.bags| && p != d.root && 0 <= m < |d.children[p]| &&
          d.children[p][m] in labels && graph[k] in labels[d.children[p][m]] &&
          Seals(d, p, d.children[p][m], graph[k].endpoints);
        var c := d.children[p][m];
        LabelMember(graph, d, labels, labelIndices, c, k);
      }
    }
    forall k | 0 <= k < |graph|
      ensures exists u :: u in labels && graph[k] in labels[u]
    {
      LabelMember(graph, d, labels, labelIndices, d.root, k);
      if k in sealedAt {
        LabelMember(graph, d, labels, labelIndices, introducedAt[k], k);
      }
    }
  }

  /**
   * Once every node is labelled along `order`, a node other than the root
   * holds a hyperedge iff it is the hyperedge's claimant: the first node
   * of the order that runs the subset check and whose bag holds the
   * hyperedge's endpoints.
   */
  lemma NonRootLabels(graph: seq<Hyperedge>, d: Decomposition, labels: map<nat, seq<Hyperedge>>,
                      labelIndices: map<nat, seq<nat>>, introducedAt: map<nat, nat>, sealedAt: map<nat, nat>,
                      states: seq<int>, order: seq<nat>)
    requires Invariant(graph, d, labels, labelIndices, introducedAt, sealedAt, states) && DistinctIds(graph)
    requires PlacedInOrder(graph, d, order, |order|, introducedAt)
    ensures forall u, k :: u in labels && u != d.root && 0 <= k < |graph| ==>
      (graph[k] in labels[u] <==> Claimant(d, order, graph[k]) == Some(u))
  {
    forall u, k | u in labels && u != d.root && 0 <= k < |graph|
      ensures graph[k] in labels[u] <==> Claimant(d, order, graph[k]) == Some(u)
    {
      LabelMember(graph, d, labels, labelIndices, u, k);
      if k in labelIndices[u] {
        var m :| 0 <= m < |labelIndices[u]| && labelIndices[u][m] == k;
        assert introducedAt[k] == u;
      }
    }
  }

  /**
   * As written, the root's label takes back every hyperedge that a node
   * other than the root holds but that no parent other than the root
   * sealed: such a hyperedge is in two labels.
   */
  lemma RootRetakesUnsealed(graph: seq<Hyperedge>, d: Decomposition, labels: map<nat, seq<Hyperedge>>,
                            labelIndices: map<nat, seq<nat>>, introducedAt: map<nat, nat>, sealedAt: map<nat, nat>,
                            states: seq<int>)
    requires Invariant(graph, d, labels, labelIndices, introducedAt, sealedAt, states) && DistinctIds(graph)
    requires d.root in labels
    requires forall k :: 0 <= k < |graph| ==> (k in labelIndices[d.root] <==> k !in sealedAt)
    ensures forall u, k ::
              (u in labels && u != d.root && 0 <= k < |graph| && graph[k] in labels[u] && NoParentSeals(d, u, graph[k])) ==>
              graph[k] in labels[d.root]
  {
    forall u, k | u in labels && u != d.root && 0 <= k < |graph| && graph[k] in labels[u] &&
      NoParentSeals(d, u, graph[k])
      ensures graph[k] in labels[d.root]
    {
      LabelMember(graph, d, labels, labelIndices, u, k);
      var m :| 0 <= m < |labelIndices[u]| && labelIndices[u][m] == k;
      assert introducedAt[k] == u;
      assert k !in sealedAt;
      LabelMember(graph, d, labels, labelIndices, d.root, k);
    }
  }

  /**
   * The labelling as evidently intended: when the root's label takes only
   * the hyperedges no other node took, it holds exactly the hyperedges
   * without a claimant, and every hyperedge is in exactly one label.
   */
  lemma ExactlyOneLabel(graph: seq<Hyperedge>, d: Decomposition, labels: map<nat, seq<Hyperedge>>,
                        labelIndices: map<nat, seq<nat>>, introducedAt: map<nat, nat>, sealedAt: map<nat, nat>,
                        states: seq<int>, order: seq<nat>)
    requires Invariant(graph, d, labels, labelIndices, introducedAt, sealedAt, states) && DistinctIds(graph)
    requires forall u: nat :: u in labels <==> u < |d.bags|
    requires PlacedInOrder(graph, d, order, |order|, introducedAt)
    requires forall k :: 0 <= k < |graph| ==> (k in labelIndices[d.root] <==> k !in introducedAt)
    ensures forall u, k :: u in labels && 0 <= k < |graph| ==> (graph[k] in labels[u] <==> Owner(d, order, graph[k]) == u)
    ensures forall k :: 0 <= k < |graph| ==> Owner(d, order, graph[k]) in labels
  {
    NonRootLabels(graph, d, labels, labelIndices, introducedAt, sealedAt, states, order);
    forall u, k | u in labels && 0 <= k < |graph|
      ensures graph[k] in labels[u] <==> Owner(d, order, graph[k]) == u
    {
      ClaimantFirst(d, order, graph[k]);
      if u == d.root {
        LabelMember(graph, d, labels, labelIndices, d.root, k);
      }
    }
    forall k | 0 <= k < |graph|
      ensures Owner(d, order, graph[k]) in labels
    {
      ClaimantFirst(d, order, graph[k]);
    }
  }

  /** Every label is an ordered subsequence of the graph's hyperedges. */
  lemma LabelsOrdered(graph: seq<Hyperedge>, d: Decomposition, labels: map<nat, seq<Hyperedge>>,
                      labelIndices: map<nat, seq<nat>>)
    requires Indexed(graph, d, labels, labelIndices)
    ensures forall u :: u in labels ==> OrderedSubsequence(labels[u], graph)
  {
    forall u | u in labels
      ensures OrderedSubsequence(labels[u], graph)
    {
      IndexedSubsequence(labels[u], graph, labelIndices[u]);
    }
  }
}
