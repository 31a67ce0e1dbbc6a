/**
 * The normalization operation of htd (src/htd/NormalizationOperation.cpp):
 * four rewriting stages run in a fixed order over a decomposition. In the
 * overload that tracks created and removed vertices, each stage receives the
 * caller's relevant vertices followed by every vertex the earlier stages of
 * the same call created. The stages themselves are not part of this model:
 * a stage call is a parameter that returns the new decomposition and the
 * vertices the stage appends to the created and removed lists.
 */
module Normalization {
  import opened Outcomes

  type Vertex = nat

  /** A labelling function handed on to every stage, identified by its name. */
  type LabelingFunction = string

  /** The requirements of the semi-normalization this operation extends. */
  datatype SemiNormalizationSettings =
    SemiNormalizationSettings(emptyRoot: bool, emptyLeaves: bool, identicalJoinNodeParent: bool)

  /**
   * A rewriting stage with the arguments it is built with. `None` as the
   * leaf flag of the last stage means the flag is left to that stage's own
   * constructor.
   */
  datatype Stage =
    | SemiNormalization(settings: SemiNormalizationSettings)
    | ExchangeNodeReplacement
    | LimitMaximumForgottenVertexCount(limit: nat)
    | LimitMaximumIntroducedVertexCount(limit: nat, treatLeafNodesAsIntroduceNodes: Option<bool>)

  /** One call of a stage's `apply`: the stage, the relevant vertices it is given (if any) and the labelling functions. */
  datatype Call = Call(stage: Stage, relevantVertices: Option<seq<Vertex>>, labelingFunctions: seq<LabelingFunction>)

  /** What one stage call does: the decomposition after it and the vertices it appends to the two lists. */
  datatype Effect<D> = Effect(decomposition: D, created: seq<Vertex>, removed: seq<Vertex>)

  /** The stages' `apply`. */
  type Runner<!D> = (Call, D) -> Effect<D>

  /** A run of several stages: the final decomposition, all vertices appended, and the calls made in order. */
  datatype Run<D> = Run(decomposition: D, created: seq<Vertex>, removed: seq<Vertex>, calls: seq<Call>)

  /** The stages one after the other, each given the same relevant vertices. */
  function InTurn<D>(stages: seq<Stage>, d: D, relevant: Option<seq<Vertex>>,
                     labelingFunctions: seq<LabelingFunction>, run: Runner<D>): (r: Run<D>)
    ensures |r.calls| == |stages|
    decreases |stages|
  {
    if stages == [] then Run(d, [], [], [])
    else
      var before := InTurn(stages[..|stages| - 1], d, relevant, labelingFunctions, run);
      var call := Call(stages[|stages| - 1], relevant, labelingFunctions);
      var e := run(call, before.decomposition);
      Run(e.decomposition, before.created + e.created, before.removed + e.removed, before.calls + [call])
  }

  /**
   * The stages one after the other, each given `relevant` followed by every
   * vertex the stages before it created.
   */
  function Chained<D>(stages: seq<Stage>, d: D, relevant: seq<Vertex>,
                      labelingFunctions: seq<LabelingFunction>, run: Runner<D>): (r: Run<D>)
    ensures |r.calls| == |stages|
    decreases |stages|
  {
    if stages == [] then Run(d, [], [], [])
    else
      var before := Chained(stages[..|stages| - 1], d, relevant, labelingFunctions, run);
      var call := Call(stages[|stages| - 1], Some(relevant + before.created), labelingFunctions);
      var e := run(call, before.decomposition);
      Run(e.decomposition, before.created + e.created, before.removed + e.removed, before.calls + [call])
  }

  /** Every stage of `InTurn` is called, in order, with the same arguments. */
  lemma {:induction false} InTurnCalls<D>(stages: seq<Stage>, d: D, relevant: Option<seq<Vertex>>,
                                          labelingFunctions: seq<LabelingFunction>, run: Runner<D>)
    ensures var r := InTurn(stages, d, relevant, labelingFunctions, run);
      forall k :: 0 <= k < |stages| ==> r.calls[k] == Call(stages[k], relevant, labelingFunctions)
    decreases |stages|
  {
    if stages != [] {
      InTurnCalls(stages[..|stages| - 1], d, relevant, labelingFunctions, run);
    }
  }

  /**
   * Stage `k` of `Chained` is called with `relevant` followed by exactly the
   * vertices stages `0..k-1` created, in order; those are a prefix of what
   * the whole run appends, so no vertex created before the run is among them.
   */
  lemma {:induction false} ChainedRelevant<D>(stages: seq<Stage>, d: D, relevant: seq<Vertex>,
                                              labelingFunctions: seq<LabelingFunction>, run: Runner<D>, k: nat)
    requires k < |stages|
    ensures var r := Chained(stages, d, relevant, labelingFunctions, run);
      var before := Chained(stages[..k], d, relevant, labelingFunctions, run).created;
      r.calls[k] == Call(stages[k], Some(relevant + before), labelingFunctions) && before <= r.created
    decreases |stages|
  {
    var init := stages[..|stages| - 1];
    if k < |stages| - 1 {
      ChainedRelevant(init, d, relevant, labelingFunctions, run, k);
      assert init[..k] == stages[..k];
    } else {
      assert init == stages[..k];
    }
  }

  /** The run of the first `k` stages extends the run of the first `k - 1` by stage `k - 1`. */
  lemma InTurnPrefix<D>(stages: seq<Stage>, k: nat, d: D, relevant: Option<seq<Vertex>>,
                        labelingFunctions: seq<LabelingFunction>, run: Runner<D>)
    requires 0 < k <= |stages|
    ensures var before := InTurn(stages[..k - 1], d, relevant, labelingFunctions, run);
      var call := Call(stages[k - 1], relevant, labelingFunctions);
      var e := run(call, before.decomposition);
      InTurn(stages[..k], d, relevant, labelingFunctions, run) ==
        Run(e.decomposition, before.created + e.created, before.removed + e.removed, before.calls + [call])
  {
    assert stages[..k][..k - 1] == stages[..k - 1];
  }

  /** The state after the stages `done`: the decomposition, both lists extended by what they appended, and their calls. */
  ghost predicate Progress<D>(done: seq<Stage>, d: D, relevant: seq<Vertex>, labelingFunctions: seq<LabelingFunction>,
                              run: Runner<D>, createdVertices: seq<Vertex>, removedVertices: seq<Vertex>,
                              result: D, created: seq<Vertex>, removed: seq<Vertex>, calls: seq<Call>)
  {
    var r := Chained(done, d, relevant, labelingFunctions, run);
    result == r.decomposition && created == createdVertices + r.created &&
    removed == removedVertices + r.removed && calls == r.calls
  }

  /**
   * One stage of the tracked overload, run after the stages `done`: it is
   * given the caller's relevant vertices followed by all the earlier stages
   * created, and the two lists grow by what it appends.
   */
  method TrackedStage<D>(stage: Stage, newRelevantVertices: seq<Vertex>, labelingFunctions: seq<LabelingFunction>,
                         run: Runner<D>, ghost done: seq<Stage>, ghost d: D, ghost relevant: seq<Vertex>,
                         ghost createdVertices: seq<Vertex>, ghost removedVertices: seq<Vertex>,
                         decomposition: D, created: seq<Vertex>, removed: seq<Vertex>, calls: seq<Call>)
    returns (result: D, created': seq<Vertex>, removed': seq<Vertex>, calls': seq<Call>)
    requires Progress(done, d, relevant, labelingFunctions, run, createdVertices, removedVertices,
                      decomposition, created, removed, calls)
    requires newRelevantVertices == relevant + Chained(done, d, relevant, labelingFunctions, run).created
    ensures Progress(done + [stage], d, relevant, labelingFunctions, run, createdVertices, removedVertices,
                     result, created', removed', calls')
    ensures newRelevantVertices + created'[|created|..] ==
            relevant + Chained(done + [stage], d, relevant, labelingFunctions, run).created
    ensures |created| <= |created'|
  {
    var call := Call(stage, Some(newRelevantVertices), labelingFunctions);
    var e := run(call, decomposition);
    result, created', removed', calls' := e.decomposition, created + e.created, removed + e.removed, calls + [call];
    ghost var before := Chained(done, d, relevant, labelingFunctions, run);
    assert (done + [stage])[..|done|] == done;
    assert Chained(done + [stage], d, relevant, labelingFunctions, run) ==
           Run(e.decomposition, before.created + e.created, before.removed + e.removed, before.calls + [call]);
    assert created' == createdVertices + (before.created + e.created);
    assert removed' == removedVertices + (before.removed + e.removed);
    assert created'[|created|..] == e.created;
  }

  /** Before any stage: nothing appended, no call made. */
  lemma TrackedStart<D>(d: D, relevant: seq<Vertex>, labelingFunctions: seq<LabelingFunction>,
                        run: Runner<D>, createdVertices: seq<Vertex>, removedVertices: seq<Vertex>)
    ensures Progress([], d, relevant, labelingFunctions, run, createdVertices, removedVertices,
                     d, createdVertices, removedVertices, [])
    ensures relevant == relevant + Chained([], d, relevant, labelingFunctions, run).created
  {
    assert relevant + [] == relevant;
    assert createdVertices + [] == createdVertices && removedVertices + [] == removedVertices;
  }

  /** Lines 151-158: the vertices appended since `oldCreatedVerticesCount` join the relevant ones. */
  method TakeNewVertices(newRelevantVertices: seq<Vertex>, createdVertices: seq<Vertex>, oldCreatedVerticesCount: nat)
    returns (relevant: seq<Vertex>, count: nat)
    requires oldCreatedVerticesCount <= |createdVertices|
    ensures relevant == newRelevantVertices + createdVertices[oldCreatedVerticesCount..]
    ensures count == |createdVertices|
  {
    var newVertexCount := |createdVertices| - oldCreatedVerticesCount;
    relevant, count := newRelevantVertices, oldCreatedVerticesCount;
    if newVertexCount > 0 {
      relevant := newRelevantVertices + createdVertices[oldCreatedVerticesCount..];
      count := |createdVertices|;
    } else {
      assert createdVertices[oldCreatedVerticesCount..] == [];
    }
  }

  /** The operation and its four requirement flags. */
  datatype NormalizationOperation = NormalizationOperation(
    emptyRoot: bool, emptyLeaves: bool, identicalJoinNodeParent: bool, treatLeafNodesAsIntroduceNodes: bool)
  {
    function Settings(): SemiNormalizationSettings {
      SemiNormalizationSettings(emptyRoot, emptyLeaves, identicalJoinNodeParent)
    }

    /** The stages of the tree overloads; the last one gets the leaf flag. */
    function TreeStages(): (r: seq<Stage>)
      ensures |r| == 4
    {
      [SemiNormalization(Settings()), ExchangeNodeReplacement, LimitMaximumForgottenVertexCount(1),
       LimitMaximumIntroducedVertexCount(1, Some(treatLeafNodesAsIntroduceNodes))]
    }

    /** The stages of the path overloads; the last one is built without the leaf flag. */
    function PathStages(): (r: seq<Stage>)
      ensures |r| == 4
    {
      [SemiNormalization(Settings()), ExchangeNodeReplacement, LimitMaximumForgottenVertexCount(1),
       LimitMaximumIntroducedVertexCount(1, None)]
    }

    function IsLocalOperation(): (r: bool)
      ensures r
    {
      true
    }

    function CreatesTreeNodes(): (r: bool)
      ensures r
    {
      true
    }

    function RemovesTreeNodes(): (r: bool)
      ensures !r
    {
      false
    }

    function ModifiesBagContents(): (r: bool)
      ensures !r
    {
      false
    }

    function CreatesSubsetMaximalBags(): (r: bool)
      ensures !r
    {
      false
    }

    function CreatesLocationDependendLabels(): (r: bool)
      ensures !r
    {
      false
    }

    function LeafNodesTreatedAsIntroduceNodes(): (r: bool)
      ensures r <==> treatLeafNodesAsIntroduceNodes
    {
      treatLeafNodesAsIntroduceNodes
    }

    /** A new operation built from this one's four flags. */
    function Clone(): (r: NormalizationOperation)
      ensures r == this
    {
      NormalizationOperation(Settings().emptyRoot, Settings().emptyLeaves, Settings().identicalJoinNodeParent,
                             LeafNodesTreatedAsIntroduceNodes())
    }

    /** Path overload with labelling functions: the four path stages, without relevant vertices. */
    method ApplyToPathLabeled<D>(decomposition: D, labelingFunctions: seq<LabelingFunction>, run: Runner<D>)
      returns (result: D, calls: seq<Call>)
      ensures var r := InTurn(PathStages(), decomposition, None, labelingFunctions, run);
        result == r.decomposition && calls == r.calls
    {
      var stages := PathStages();
      result, calls := decomposition, [];
      assert stages[..0] == [];
      var call := Call(stages[0], None, labelingFunctions);
      result, calls := run(call, result).decomposition, calls + [call];
      InTurnPrefix(stages, 1, decomposition, None, labelingFunctions, run);
      call := Call(stages[1], None, labelingFunctions);
      result, calls := run(call, result).decomposition, calls + [call];
      InTurnPrefix(stages, 2, decomposition, None, labelingFunctions, run);
      call := Call(stages[2], None, labelingFunctions);
      result, calls := run(call, result).decomposition, calls + [call];
      InTurnPrefix(stages, 3, decomposition, None, labelingFunctions, run);
      call := Call(stages[3], None, labelingFunctions);
      result, calls := run(call, result).decomposition, calls + [call];
      InTurnPrefix(stages, 4, decomposition, None, labelingFunctions, run);
      assert stages[..4] == stages;
    }

    /** Path overload with relevant vertices and labelling functions: every stage gets `relevantVertices` as given. */
    method ApplyToPathRelevant<D>(decomposition: D, relevantVertices: seq<Vertex>,
                                  labelingFunctions: seq<LabelingFunction>, run: Runner<D>)
      returns (result: D, calls: seq<Call>)
      ensures var r := InTurn(PathStages(), decomposition, Some(relevantVertices), labelingFunctions, run);
        result == r.decomposition && calls == r.calls
    {
      var stages := PathStages();
      result, calls := decomposition, [];
      assert stages[..0] == [];
      var call := Call(stages[0], Some(relevantVertices), labelingFunctions);
      result, calls := run(call, result).decomposition, calls + [call];
      InTurnPrefix(stages, 1, decomposition, Some(relevantVertices), labelingFunctions, run);
      call := Call(stages[1], Some(relevantVertices), labelingFunctions);
      result, calls := run(call, result).decomposition, calls + [call];
      InTurnPrefix(stages, 2, decomposition, Some(relevantVertices), labelingFunctions, run);
      call := Call(stages[2], Some(relevantVertices), labelingFunctions);
      result, calls := run(call, result).decomposition, calls + [call];
      InTurnPrefix(stages, 3, decomposition, Some(relevantVertices), labelingFunctions, run);
      call := Call(stages[3], Some(relevantVertices), labelingFunctions);
      result, calls := run(call, result).decomposition, calls + [call];
      InTurnPrefix(stages, 4, decomposition, Some(relevantVertices), labelingFunctions, run);
      assert stages[..4] == stages;
    }

    /** Path overload without arguments: no labelling functions. */
    method ApplyToPath<D>(decomposition: D, run: Runner<D>) returns (result: D, calls: seq<Call>)
      ensures var r := InTurn(PathStages(), decomposition, None, [], run);
        result == r.decomposition && calls == r.calls
    {
      result, calls := ApplyToPathLabeled(decomposition, [], run);
    }

    /** Path overload with relevant vertices only: no labelling functions. */
    method ApplyToPathRelevantOnly<D>(decomposition: D, relevantVertices: seq<Vertex>, run: Runner<D>)
      returns (result: D, calls: seq<Call>)
      ensures var r := InTurn(PathStages(), decomposition, Some(relevantVertices), [], run);
        result == r.decomposition && calls == r.calls
    {
      result, calls := ApplyToPathRelevant(decomposition, relevantVertices, [], run);
    }

    /** Tree overload with labelling functions: the four tree stages, without relevant vertices. */
    method ApplyToTreeLabeled<D>(decomposition: D, labelingFunctions: seq<LabelingFunction>, run: Runner<D>)
      returns (result: D, calls: seq<Call>)
      ensures var r := InTurn(TreeStages(), decomposition, None, labelingFunctions, run);
        result == r.decomposition && calls == r.calls
    {
      var stages := TreeStages();
      result, calls := decomposition, [];
      assert stages[..0] == [];
      var call := Call(stages[0], None, labelingFunctions);
      result, calls := run(call, result).decomposition, calls + [call];
      InTurnPrefix(stages, 1, decomposition, None, labelingFunctions, run);
      call := Call(stages[1], None, labelingFunctions);
      result, calls := run(call, result).decomposition, calls + [call];
      InTurnPrefix(stages, 2, decomposition, None, labelingFunctions, run);
      call := Call(stages[2], None, labelingFunctions);
      result, calls := run(call, result).decomposition, calls + [call];
      InTurnPrefix(stages, 3, decomposition, None, labelingFunctions, run);
      call := Call(stages[3], None, labelingFunctions);
      result, calls := run(call, result).decomposition, calls + [call];
      InTurnPrefix(stages, 4, decomposition, None, labelingFunctions, run);
      assert stages[..4] == stages;
    }

    /** Tree overload without arguments: no labelling functions. */
    method ApplyToTree<D>(decomposition: D, run: Runner<D>) returns (result: D, calls: seq<Call>)
      ensures var r := InTurn(TreeStages(), decomposition, None, [], run);
        result == r.decomposition && calls == r.calls
    {
      result, calls := ApplyToTreeLabeled(decomposition, [], run);
    }

    /**
     * Tree overload that tracks created and removed vertices: the four tree
     * stages, each given the caller's relevant vertices followed by the
     * vertices the earlier stages of this call created.
     */
    method ApplyToTreeTracked<D>(decomposition: D, relevantVertices: seq<Vertex>, labelingFunctions: seq<LabelingFunction>,
                                 createdVertices: seq<Vertex>, removedVertices: seq<Vertex>, run: Runner<D>)
      returns (result: D, created: seq<Vertex>, removed: seq<Vertex>, calls: seq<Call>)
      ensures var r := Chained(TreeStages(), decomposition, relevantVertices, labelingFunctions, run);
        result == r.decomposition && created == createdVertices + r.created &&
        removed == removedVertices + r.removed && calls == r.calls
    {
      var stages := TreeStages();
      var oldCreatedVerticesCount := |createdVertices|;
      var newRelevantVertices := relevantVertices;
      result, created, removed, calls := decomposition, createdVertices, removedVertices, [];
      TrackedStart(decomposition, relevantVertices, labelingFunctions, run, createdVertices, removedVertices);
      assert stages[..0] == [];

      result, created, removed, calls := TrackedStage(stages[0], newRelevantVertices, labelingFunctions, run, stages[..0],
        decomposition, relevantVertices, createdVertices, removedVertices, result, created, removed, calls);
      assert stages[..0] + [stages[0]] == stages[..1];
      newRelevantVertices, oldCreatedVerticesCount := TakeNewVertices(newRelevantVertices, created, oldCreatedVerticesCount);

      result, created, removed, calls := TrackedStage(stages[1], newRelevantVertices, labelingFunctions, run, stages[..1],
        decomposition, relevantVertices, createdVertices, removedVertices, result, created, removed, calls);
      assert stages[..1] + [stages[1]] == stages[..2];
      newRelevantVertices, oldCreatedVerticesCount := TakeNewVertices(newRelevantVertices, created, oldCreatedVerticesCount);

      result, created, removed, calls := TrackedStage(stages[2], newRelevantVertices, labelingFunctions, run, stages[..2],
        decomposition, relevantVertices, createdVertices, removedVertices, result, created, removed, calls);
      assert stages[..2] + [stages[2]] == stages[..3];
      newRelevantVertices, oldCreatedVerticesCount := TakeNewVertices(newRelevantVertices, created, oldCreatedVerticesCount);

      result, created, removed, calls := TrackedStage(stages[3], newRelevantVertices, labelingFunctions, run, stages[..3],
        decomposition, relevantVertices, createdVertices, removedVertices, result, created, removed, calls);
      assert stages[..3] + [stages[3]] == stages;
    }

    /** Tree overload with relevant vertices and the two lists, without labelling functions. */
    method ApplyToTreeTrackedUnlabeled<D>(decomposition: D, relevantVertices: seq<Vertex>,
                                          createdVertices: seq<Vertex>, removedVertices: seq<Vertex>, run: Runner<D>)
      returns (result: D, created: seq<Vertex>, removed: seq<Vertex>, calls: seq<Call>)
      ensures var r := Chained(TreeStages(), decomposition, relevantVertices, [], run);
        result == r.decomposition && created == createdVertices + r.created &&
        removed == removedVertices + r.removed && calls == r.calls
    {
      result, created, removed, calls :=
        ApplyToTreeTracked(decomposition, relevantVertices, [], createdVertices, removedVertices, run);
    }
  }

  /** The default constructor: the semi-normalization defaults, and leaves not treated as introduce nodes. */
  function DefaultOperation(defaults: SemiNormalizationSettings): (r: NormalizationOperation)
    ensures r.Settings() == defaults && !r.LeafNodesTreatedAsIntroduceNodes()
  {
    NormalizationOperation(defaults.emptyRoot, defaults.emptyLeaves, defaults.identicalJoinNodeParent, false)
  }
}
