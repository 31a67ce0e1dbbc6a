/**
 * The path post-processing driver of htd
 * (src/htd/PostProcessingPathDecompositionAlgorithm.cpp): flattening a tree
 * decomposition that is a path into a path decomposition, sorting
 * manipulation operations into a labelling list and a structural list by
 * their capabilities, and applying them to the path in a fixed order.
 */
module PostProcessingPathDecomposition {
  import opened Outcomes

  // ---------------------------------------------------------------------
  // Decompositions
  // ---------------------------------------------------------------------

  /** A label value; the driver never looks inside one. */
  datatype Label = Label(text: string)

  /** The labels of one vertex, by labelling name. */
  type Labels = map<string, Label>

  /** A node of a rooted tree decomposition: its bag, its labels and its children in order. */
  datatype TreeNode = TreeNode(bag: seq<nat>, labels: Labels, children: seq<TreeNode>)

  /** A tree decomposition: one without vertices, or one with a root. */
  datatype TreeDecomposition = EmptyTree | Rooted(root: TreeNode)

  /** A vertex of a path decomposition. */
  datatype PathNode = PathNode(bag: seq<nat>, labels: Labels)

  /** A path decomposition, its vertices listed from the root down. */
  datatype PathDecomposition = PathDecomposition(nodes: seq<PathNode>)

  /** What `toPathDecomposition` throws when the tree branches. */
  datatype Failure = LogicError

  /** No node of the tree below `n`, `n` included, has two or more children. */
  predicate IsPath(n: TreeNode)
    decreases n
  {
    |n.children| <= 1 && forall c :: c in n.children ==> IsPath(c)
  }

  /** `m` is `n` or lies below it. */
  predicate Reaches(n: TreeNode, m: TreeNode)
    decreases n
  {
    n == m || exists c :: c in n.children && Reaches(c, m)
  }

  /**
   * The unique-child chain from `n`: `n`, then, as long as the current node
   * has exactly one child, that child.
   */
  function Chain(n: TreeNode): (r: seq<TreeNode>)
    ensures |r| >= 1 && r[0] == n
    ensures |r[|r| - 1].children| != 1
    decreases n
  {
    if |n.children| == 1 then [n] + Chain(n.children[0]) else [n]
  }

  /** The path vertex made from a tree node: the same bag and every label under the same name. */
  function Copy(n: TreeNode): PathNode {
    PathNode(n.bag, n.labels)
  }

  /** The path vertices made from a sequence of tree nodes, one each, in order. */
  function CopyAll(s: seq<TreeNode>): (r: seq<PathNode>)
    ensures |r| == |s|
  {
    if s == [] then [] else CopyAll(s[..|s| - 1]) + [Copy(s[|s| - 1])]
  }

  /** The decomposition can be flattened: it is empty or its root heads a path. */
  predicate Flattenable(t: TreeDecomposition) {
    t.EmptyTree? || IsPath(t.root)
  }

  /** The path decomposition holding a copy of each node of the root's chain, in chain order. */
  function Flattened(t: TreeDecomposition): PathDecomposition {
    if t.EmptyTree? then PathDecomposition([]) else PathDecomposition(CopyAll(Chain(t.root)))
  }

  /** The chain stops at a leaf exactly when the tree is a path. */
  lemma {:induction false} ChainEndsAtLeafIffPath(n: TreeNode)
    ensures var r := Chain(n); |r[|r| - 1].children| == 0 <==> IsPath(n)
    decreases n
  {
    if |n.children| == 1 {
      var c := n.children[0];
      ChainEndsAtLeafIffPath(c);
      assert IsPath(n) <==> IsPath(c) by {
        assert forall x :: x in n.children <==> x == c;
      }
    }
  }

  /** In a path, the chain holds every node of the tree and nothing else. */
  lemma {:induction false} ChainCoversPath(n: TreeNode)
    requires IsPath(n)
    ensures forall m :: Reaches(n, m) <==> m in Chain(n)
    decreases n
  {
    if |n.children| == 1 {
      var c := n.children[0];
      ChainCoversPath(c);
      forall m ensures Reaches(n, m) <==> m in Chain(n) {
        assert Chain(n) == [n] + Chain(c);
        assert n.children == [c];
        assert Reaches(n, m) <==> n == m || Reaches(c, m);
      }
    } else {
      assert |n.children| == 0;
      forall m ensures Reaches(n, m) <==> m in Chain(n) {
        assert Chain(n) == [n];
      }
    }
  }

  /** Each node of the chain but the last has the next one as its only child. */
  lemma {:induction false} ChainLinks(n: TreeNode)
    ensures var r := Chain(n); forall i :: 0 <= i < |r| - 1 ==> r[i].children == [r[i + 1]]
    decreases n
  {
    if |n.children| == 1 {
      var c := n.children[0];
      ChainLinks(c);
      var r := Chain(n);
      assert r == [n] + Chain(c);
      forall i | 0 <= i < |r| - 1
        ensures r[i].children == [r[i + 1]]
      {
        if i > 0 {
          assert r[i] == Chain(c)[i - 1] && r[i + 1] == Chain(c)[i];
        }
      }
    }
  }

  /** Copying a walked prefix and then one more node. */
  lemma CopyAllSnoc(s: seq<TreeNode>, n: TreeNode)
    ensures CopyAll(s + [n]) == CopyAll(s) + [Copy(n)]
  {
    assert (s + [n])[..|s|] == s;
  }

  /** One step down the unique-child walk from `root`. */
  lemma WalkStep(walked: seq<TreeNode>, current: TreeNode, root: TreeNode)
    requires walked + Chain(current) == Chain(root) && |current.children| == 1
    ensures (walked + [current]) + Chain(current.children[0]) == Chain(root)
  {
    var child := current.children[0];
    assert Chain(current) == [current] + Chain(child);
    assert walked + ([current] + Chain(child)) == (walked + [current]) + Chain(child);
  }

  /** Where the walk stops, it has visited the whole chain, and it stops at a leaf iff the tree is a path. */
  lemma WalkEnd(walked: seq<TreeNode>, current: TreeNode, root: TreeNode)
    requires walked + Chain(current) == Chain(root) && |current.children| != 1
    ensures Chain(root) == walked + [current]
    ensures |current.children| == 0 <==> IsPath(root)
  {
    assert Chain(current) == [current];
    var chain := Chain(root);
    assert chain[|chain| - 1] == current;
    ChainEndsAtLeafIffPath(root);
  }

  /**
   * `toPathDecomposition`: an empty tree gives an empty path; otherwise the
   * root and then each unique child are copied into a growing path, and the
   * walk fails when it stops at a node that still has children.
   */
  method ToPathDecomposition(decomposition: TreeDecomposition) returns (r: Result<PathDecomposition, Failure>)
    ensures decomposition.EmptyTree? ==> r == Ok(PathDecomposition([]))
    ensures r.Ok? <==> Flattenable(decomposition)
    ensures r.Ok? ==> r.value == Flattened(decomposition)
  {
    if decomposition.EmptyTree? {
      return Ok(PathDecomposition([]));
    }
    var current := decomposition.root;
    var nodes := [Copy(current)];
    ghost var walked: seq<TreeNode> := [];
    assert CopyAll([current]) == CopyAll([]) + [Copy(current)];
    while |current.children| == 1
      invariant walked + Chain(current) == Chain(decomposition.root)
      invariant nodes == CopyAll(walked + [current])
      decreases current
    {
      var child := current.children[0];
      WalkStep(walked, current, decomposition.root);
      CopyAllSnoc(walked + [current], child);
      walked := walked + [current];
      current := child;
      nodes := nodes + [Copy(current)];
    }
    WalkEnd(walked, current, decomposition.root);
    if |current.children| != 0 {
      return Err(LogicError);
    }
    return Ok(PathDecomposition(nodes));
  }

  // ---------------------------------------------------------------------
  // Manipulation operations and their classification
  // ---------------------------------------------------------------------

  /**
   * A manipulation operation, by the interfaces it implements: a labelling
   * function (whose labels go under `name`), a path-manipulation operation,
   * both, or neither.
   */
  datatype Operation = Operation(name: string, labeling: bool, pathManipulation: bool)

  datatype Capability = Labeling | PathManipulation

  predicate Has(o: Operation, c: Capability) {
    match c
    case Labeling => o.labeling
    case PathManipulation => o.pathManipulation
  }

  /** The operations of `ops` that have capability `c`, in their order in `ops`. */
  function Selected(ops: seq<Operation>, c: Capability): seq<Operation> {
    if ops == [] then []
    else Selected(ops[..|ops| - 1], c) + (if Has(ops[|ops| - 1], c) then [ops[|ops| - 1]] else [])
  }

  /** An operation is selected exactly when it is one of `ops` and has the capability. */
  lemma {:induction false} SelectedMembers(ops: seq<Operation>, c: Capability)
    ensures forall o :: o in Selected(ops, c) <==> o in ops && Has(o, c)
    decreases |ops|
  {
    if ops != [] {
      var init := ops[..|ops| - 1];
      SelectedMembers(init, c);
      assert ops == init + [ops[|ops| - 1]];
    }
  }

  /** Classifying a concatenation classifies its parts one after the other. */
  lemma {:induction false} SelectedAppend(a: seq<Operation>, b: seq<Operation>, c: Capability)
    ensures Selected(a + b, c) == Selected(a, c) + Selected(b, c)
    decreases |b|
  {
    if b != [] {
      var b' := b[..|b| - 1];
      assert (a + b)[..|a + b| - 1] == a + b';
      SelectedAppend(a, b', c);
    } else {
      assert a + b == a;
    }
  }

  /** The classification loop of `computeDecomposition` on the call-scoped operations. */
  method Classify(ops: seq<Operation>) returns (labelingFunctions: seq<Operation>, postProcessingOperations: seq<Operation>)
    ensures labelingFunctions == Selected(ops, Labeling)
    ensures postProcessingOperations == Selected(ops, PathManipulation)
  {
    labelingFunctions, postProcessingOperations := [], [];
    for i := 0 to |ops|
      invariant labelingFunctions == Selected(ops[..i], Labeling)
      invariant postProcessingOperations == Selected(ops[..i], PathManipulation)
    {
      assert ops[..i + 1][..i] == ops[..i];
      if ops[i].labeling {
        labelingFunctions := labelingFunctions + [ops[i]];
      }
      if ops[i].pathManipulation {
        postProcessingOperations := postProcessingOperations + [ops[i]];
      }
    }
    assert ops[..|ops|] == ops;
  }

  // ---------------------------------------------------------------------
  // Applying operations to a path decomposition
  // ---------------------------------------------------------------------

  /** A labelling function's `computeLabel`, from a vertex's bag and labels. */
  type Compute = (Operation, seq<nat>, Labels) -> Label

  /** A path-manipulation operation's `apply`, which is not part of this model. */
  type Transform = (Operation, PathDecomposition) -> PathDecomposition

  /** One vertex after `f`: its label under `f`'s name is what `f` computes from its bag and labels. */
  function Relabel(n: PathNode, f: Operation, compute: Compute): PathNode {
    n.(labels := n.labels[f.name := compute(f, n.bag, n.labels)])
  }

  /** Every vertex after `f`. */
  function LabelAll(p: PathDecomposition, f: Operation, compute: Compute): PathDecomposition {
    PathDecomposition(seq(|p.nodes|, i requires 0 <= i < |p.nodes| => Relabel(p.nodes[i], f, compute)))
  }

  /** The labelling functions `fs` applied one after the other. */
  function Relabelled(p: PathDecomposition, fs: seq<Operation>, compute: Compute): PathDecomposition {
    if fs == [] then p else LabelAll(Relabelled(p, fs[..|fs| - 1], compute), fs[|fs| - 1], compute)
  }

  /** The structural operations `ops` applied one after the other. */
  function Transformed(p: PathDecomposition, ops: seq<Operation>, transform: Transform): PathDecomposition {
    if ops == [] then p else transform(ops[|ops| - 1], Transformed(p, ops[..|ops| - 1], transform))
  }

  /** The names under which the labelling functions `fs` write. */
  function Names(fs: seq<Operation>): set<string> {
    set f | f in fs :: f.name
  }

  /** Applying `a + b` is applying `a`, then `b`. */
  lemma {:induction false} RelabelledAppend(p: PathDecomposition, a: seq<Operation>, b: seq<Operation>, compute: Compute)
    ensures Relabelled(p, a + b, compute) == Relabelled(Relabelled(p, a, compute), b, compute)
    decreases |b|
  {
    if b != [] {
      var b' := b[..|b| - 1];
      assert (a + b)[..|a + b| - 1] == a + b';
      RelabelledAppend(p, a, b', compute);
    } else {
      assert a + b == a;
    }
  }

  /** Applying `a + b` is applying `a`, then `b`. */
  lemma {:induction false} TransformedAppend(p: PathDecomposition, a: seq<Operation>, b: seq<Operation>, transform: Transform)
    ensures Transformed(p, a + b, transform) == Transformed(Transformed(p, a, transform), b, transform)
    decreases |b|
  {
    if b != [] {
      var b' := b[..|b| - 1];
      assert (a + b)[..|a + b| - 1] == a + b';
      TransformedAppend(p, a, b', transform);
    } else {
      assert a + b == a;
    }
  }

  /**
   * Labelling keeps the vertices and their bags, and leaves every label
   * under a name no function in `fs` writes as it was.
   */
  lemma {:induction false} RelabelledFrame(p: PathDecomposition, fs: seq<Operation>, compute: Compute)
    ensures var r := Relabelled(p, fs, compute);
      |r.nodes| == |p.nodes| &&
      forall i :: 0 <= i < |p.nodes| ==>
        r.nodes[i].bag == p.nodes[i].bag &&
        forall name :: name !in Names(fs) ==>
          (name in r.nodes[i].labels <==> name in p.nodes[i].labels) &&
          (name in p.nodes[i].labels ==> r.nodes[i].labels[name] == p.nodes[i].labels[name])
    decreases |fs|
  {
    if fs != [] {
      var fs' := fs[..|fs| - 1];
      RelabelledFrame(p, fs', compute);
      assert Names(fs') <= Names(fs) by {
        forall name | name in Names(fs') ensures name in Names(fs) {
          var f :| f in fs' && f.name == name;
          assert f in fs;
        }
      }
      assert fs[|fs| - 1] in fs;
    }
  }

  /**
   * The label a vertex ends up with under the name of `fs[k]`, when no later
   * function writes that name, is the one `fs[k]` computed from the vertex's
   * bag and the labels left by the functions before it.
   */
  lemma {:induction false} LastWriterWins(p: PathDecomposition, fs: seq<Operation>, compute: Compute, k: nat, i: nat)
    requires k < |fs| && i < |p.nodes|
    requires forall j :: k < j < |fs| ==> fs[j].name != fs[k].name
    ensures var before := Relabelled(p, fs[..k], compute);
      var r := Relabelled(p, fs, compute);
      |before.nodes| == |p.nodes| && |r.nodes| == |p.nodes| && fs[k].name in r.nodes[i].labels &&
      r.nodes[i].labels[fs[k].name] == compute(fs[k], before.nodes[i].bag, before.nodes[i].labels)
    decreases |fs|
  {
    RelabelledFrame(p, fs[..k], compute);
    RelabelledFrame(p, fs, compute);
    if k < |fs| - 1 {
      var fs' := fs[..|fs| - 1];
      assert fs'[..k] == fs[..k];
      LastWriterWins(p, fs', compute, k, i);
    } else {
      assert fs[..|fs| - 1] == fs[..k];
    }
  }

  /** The per-vertex loop of one labelling function. */
  method LabelVertices(p: PathDecomposition, f: Operation, compute: Compute) returns (r: PathDecomposition)
    ensures r == LabelAll(p, f, compute)
  {
    var nodes := p.nodes;
    for v := 0 to |nodes|
      invariant |nodes| == |p.nodes|
      invariant forall i :: 0 <= i < v ==> nodes[i] == Relabel(p.nodes[i], f, compute)
      invariant forall i :: v <= i < |nodes| ==> nodes[i] == p.nodes[i]
    {
      var labelCollection := nodes[v].labels;
      var newLabel := compute(f, nodes[v].bag, labelCollection);
      nodes := nodes[v := nodes[v].(labels := labelCollection[f.name := newLabel])];
    }
    r := PathDecomposition(nodes);
  }

  /** Each labelling function of `fs`, in order, over every vertex. */
  method ApplyLabelingFunctions(p: PathDecomposition, fs: seq<Operation>, compute: Compute) returns (r: PathDecomposition)
    ensures r == Relabelled(p, fs, compute)
  {
    r := p;
    for k := 0 to |fs|
      invariant r == Relabelled(p, fs[..k], compute)
    {
      assert fs[..k + 1][..k] == fs[..k];
      r := LabelVertices(r, fs[k], compute);
    }
    assert fs[..|fs|] == fs;
  }

  /** Each structural operation of `ops`, in order. */
  method ApplyOperations(p: PathDecomposition, ops: seq<Operation>, transform: Transform) returns (r: PathDecomposition)
    ensures r == Transformed(p, ops, transform)
  {
    r := p;
    for k := 0 to |ops|
      invariant r == Transformed(p, ops[..k], transform)
    {
      assert ops[..k + 1][..k] == ops[..k];
      r := transform(ops[k], r);
    }
    assert ops[..|ops|] == ops;
  }

  // ---------------------------------------------------------------------
  // The algorithm object
  // ---------------------------------------------------------------------

  class PostProcessingPathDecompositionAlgorithm {
    /** The labelling functions held for every call. */
    var labelingFunctions: seq<Operation>
    /** The path-manipulation operations held for every call. */
    var postProcessingOperations: seq<Operation>

    constructor ()
      ensures labelingFunctions == [] && postProcessingOperations == []
    {
      labelingFunctions, postProcessingOperations := [], [];
    }

    constructor WithOperations(manipulationOperations: seq<Operation>)
      ensures labelingFunctions == Selected(manipulationOperations, Labeling)
      ensures postProcessingOperations == Selected(manipulationOperations, PathManipulation)
    {
      labelingFunctions, postProcessingOperations := [], [];
      new;
      SetManipulationOperations(manipulationOperations);
    }

    /** Both lists are emptied, then refilled from `manipulationOperations`. */
    method SetManipulationOperations(manipulationOperations: seq<Operation>)
      modifies this
      ensures labelingFunctions == Selected(manipulationOperations, Labeling)
      ensures postProcessingOperations == Selected(manipulationOperations, PathManipulation)
    {
      labelingFunctions := [];
      postProcessingOperations := [];
      AddManipulationOperations(manipulationOperations);
    }

    /** The operation joins each list whose capability it has. */
    method AddManipulationOperation(manipulationOperation: Operation)
      modifies this
      ensures labelingFunctions == old(labelingFunctions) + Selected([manipulationOperation], Labeling)
      ensures postProcessingOperations == old(postProcessingOperations) + Selected([manipulationOperation], PathManipulation)
    {
      if manipulationOperation.labeling {
        labelingFunctions := labelingFunctions + [manipulationOperation];
      }
      if manipulationOperation.pathManipulation {
        postProcessingOperations := postProcessingOperations + [manipulationOperation];
      }
    }

    /** Each operation in turn joins each list whose capability it has. */
    method AddManipulationOperations(manipulationOperations: seq<Operation>)
      modifies this
      ensures labelingFunctions == old(labelingFunctions) + Selected(manipulationOperations, Labeling)
      ensures postProcessingOperations == old(postProcessingOperations) + Selected(manipulationOperations, PathManipulation)
    {
      for i := 0 to |manipulationOperations|
        invariant labelingFunctions == old(labelingFunctions) + Selected(manipulationOperations[..i], Labeling)
        invariant postProcessingOperations == old(postProcessingOperations) + Selected(manipulationOperations[..i], PathManipulation)
      {
        var operation := manipulationOperations[i];
        assert manipulationOperations[..i + 1][..i] == manipulationOperations[..i];
        if operation.labeling {
          labelingFunctions := labelingFunctions + [operation];
        }
        if operation.pathManipulation {
          postProcessingOperations := postProcessingOperations + [operation];
        }
      }
      assert manipulationOperations[..|manipulationOperations|] == manipulationOperations;
    }

    function IsSafelyInterruptible(): (r: bool)
      ensures !r
    {
      false
    }

    /**
     * `clone` as written: every held labelling function, then every held
     * structural operation, goes through `addManipulationOperation` again.
     */
    method Clone() returns (r: PostProcessingPathDecompositionAlgorithm)
      ensures fresh(r)
      ensures r.labelingFunctions == Selected(labelingFunctions + postProcessingOperations, Labeling)
      ensures r.postProcessingOperations == Selected(labelingFunctions + postProcessingOperations, PathManipulation)
    {
      var held := labelingFunctions;
      var operations := postProcessingOperations;
      SelectedAppend(held, operations, Labeling);
      SelectedAppend(held, operations, PathManipulation);
      r := new PostProcessingPathDecompositionAlgorithm();
      r.AddManipulationOperations(held);
      assert [] + Selected(held, Labeling) == Selected(held, Labeling);
      assert [] + Selected(held, PathManipulation) == Selected(held, PathManipulation);
      r.AddManipulationOperations(operations);
    }

    /** A copy that holds exactly the same two lists. */
    method CloneCorrected() returns (r: PostProcessingPathDecompositionAlgorithm)
      ensures fresh(r)
      ensures r.labelingFunctions == labelingFunctions
      ensures r.postProcessingOperations == postProcessingOperations
    {
      r := new PostProcessingPathDecompositionAlgorithm();
      r.labelingFunctions := labelingFunctions;
      r.postProcessingOperations := postProcessingOperations;
    }

    /**
     * `computeDecomposition` from the tree decomposition that the external
     * algorithm, compression and join-node replacement produce: flattening,
     * then the held structural operations, the call-scoped structural ones,
     * the held labelling functions and the call-scoped labelling functions.
     */
    method ComputeDecomposition(tree: TreeDecomposition, manipulationOperations: seq<Operation>,
                                compute: Compute, transform: Transform)
      returns (r: Result<PathDecomposition, Failure>)
      ensures r.Ok? <==> Flattenable(tree)
      ensures r.Ok? ==> r.value == Relabelled(
        Transformed(Flattened(tree), postProcessingOperations + Selected(manipulationOperations, PathManipulation), transform),
        labelingFunctions + Selected(manipulationOperations, Labeling), compute)
    {
      var flattened := ToPathDecomposition(tree);
      if flattened.Err? {
        return Err(flattened.error);
      }
      var ret := flattened.value;
      var callLabelingFunctions, callPostProcessingOperations := Classify(manipulationOperations);
      ret := ApplyOperations(ret, postProcessingOperations, transform);
      ret := ApplyOperations(ret, callPostProcessingOperations, transform);
      ret := ApplyLabelingFunctions(ret, labelingFunctions, compute);
      ret := ApplyLabelingFunctions(ret, callLabelingFunctions, compute);
      TransformedAppend(flattened.value, postProcessingOperations, callPostProcessingOperations, transform);
      RelabelledAppend(Transformed(flattened.value, postProcessingOperations + callPostProcessingOperations, transform),
                       labelingFunctions, callLabelingFunctions, compute);
      return Ok(ret);
    }
  }

  /**
   * The copy `clone` makes of an algorithm holding one operation that is
   * both a labelling function and a path-manipulation operation holds that
   * operation twice in each list.
   */
  lemma CloneDuplicatesDualOperation(op: Operation)
    requires op.labeling && op.pathManipulation
    ensures Selected([op], Labeling) == [op] && Selected([op], PathManipulation) == [op]
    ensures Selected([op] + [op], Labeling) == [op, op]
    ensures Selected([op] + [op], PathManipulation) == [op, op]
  {
    assert [op][..0] == [];
    assert ([op] + [op])[..1] == [op];
  }

  /**
   * The same on the object: an algorithm built with one operation that is
   * both a labelling function and a path-manipulation operation holds it
   * once in each list, and its copy by `clone` holds it twice in each.
   */
  method CloneDuplicatesOnObject(op: Operation)
    returns (original: PostProcessingPathDecompositionAlgorithm, copy: PostProcessingPathDecompositionAlgorithm)
    requires op.labeling && op.pathManipulation
    ensures original.labelingFunctions == [op] && original.postProcessingOperations == [op]
    ensures copy.labelingFunctions == [op, op] && copy.postProcessingOperations == [op, op]
  {
    original := new PostProcessingPathDecompositionAlgorithm.WithOperations([op]);
    CloneDuplicatesDualOperation(op);
    copy := original.Clone();
  }

  /** Without operations of both kinds, the copy `clone` makes holds the same lists. */
  lemma CloneFaithfulWithoutDualOperations(labelingFunctions: seq<Operation>, postProcessingOperations: seq<Operation>)
    requires forall o :: o in labelingFunctions ==> o.labeling && !o.pathManipulation
    requires forall o :: o in postProcessingOperations ==> o.pathManipulation && !o.labeling
    ensures Selected(labelingFunctions + postProcessingOperations, Labeling) == labelingFunctions
    ensures Selected(labelingFunctions + postProcessingOperations, PathManipulation) == postProcessingOperations
  {
    SelectedAppend(labelingFunctions, postProcessingOperations, Labeling);
    SelectedAppend(labelingFunctions, postProcessingOperations, PathManipulation);
    SelectedAll(labelingFunctions, Labeling);
    SelectedNone(labelingFunctions, PathManipulation);
    SelectedAll(postProcessingOperations, PathManipulation);
    SelectedNone(postProcessingOperations, Labeling);
  }

  lemma {:induction false} SelectedAll(ops: seq<Operation>, c: Capability)
    requires forall o :: o in ops ==> Has(o, c)
    ensures Selected(ops, c) == ops
    decreases |ops|
  {
    if ops != [] {
      SelectedAll(ops[..|ops| - 1], c);
      assert ops[|ops| - 1] in ops;
      assert ops == ops[..|ops| - 1] + [ops[|ops| - 1]];
    }
  }

  lemma {:induction false} SelectedNone(ops: seq<Operation>, c: Capability)
    requires forall o :: o in ops ==> !Has(o, c)
    ensures Selected(ops, c) == []
    decreases |ops|
  {
    if ops != [] {
      SelectedNone(ops[..|ops| - 1], c);
      assert ops[|ops| - 1] in ops;
    }
  }
}
