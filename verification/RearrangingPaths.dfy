/** Element counts along chains of operations and along a graph, reshapes with zeros included,
    and where the shape recorded for a reshape is not the one emitted. */
module RearrangingPaths {
  import opened Wrappers
  import opened Strings
  import opened ShapeOps
  import opened Weights
  import opened Mir
  import opened ShapeInference
  import opened ForwardShapes
  import opened ElementCounts
  import opened ReshapeResolution
  import opened Compat
  import opened Lowering

  predicate ReadsOne(op: MirOp) {
    op.Transpose? || op.Reshape? || op.ExpandDims? || op.Squeeze? || op.Flatten2d? || op.Unary? || op.Identity?
  }

  /** A target whose emitted form has the elements of `x`, branch by branch of the conversion. */
  ghost predicate ReshapeRearranges(op: MirOp, nodeShape: Shape, declared: map<string, Shape>, x: Shape)
    requires op.Reshape?
  {
    if ZeroFree(op.target) then Product(op.target) == Product(x)
    else if UsableShape(nodeShape, op.target) then Product(nodeShape) == Product(x)
    else if op.x in declared then
      && Product(declared[op.x]) == Product(x)
      && Positive(declared[op.x]) && Completable(op.target, declared[op.x], BatchSize(declared[op.x]))
    else |nodeShape| == |op.target| && Product(FromNodeShape(op.target, nodeShape)) == Product(x)
  }

  /** Nodes that only rearrange the elements of an operand of shape `x`, in a graph that declares
      these shapes. */
  ghost predicate Rearranges(node: MirNode, declared: map<string, Shape>, x: Shape)
    requires ReadsOne(node.op)
  {
    match node.op
    case Transpose(_, _, perm) => IsPermutation(perm, |x|)
    case Reshape(_, _, _) => ReshapeRearranges(node.op, node.shape, declared, x)
    case ExpandDims(_, _, _) => true
    case Squeeze(_, _, axes) => RemovesOnes(x, SortAxes(axes))
    case Flatten2d(_, _, axis) => axis <= |x|
    case Unary(_, _, _) => true
    case Identity(_, source) => source != PLACEHOLDER
  }

  /** What the emitted operation yields: the target a reshape is given by the conversion, with the
      node's own and its operand's declared shape, and what the rules say else. */
  function YieldedShape(node: MirNode, declared: map<string, Shape>, shapes: ShapeMap, maxSeqLen: nat): Shape {
    if node.op.Reshape? then ReshapeTarget(node.op, node.shape, declared) else RuleShape(node.id, node.op, shapes, maxSeqLen)
  }

  /** Whatever rearranges the elements of its operand keeps their count. */
  lemma {:induction false} RearrangingKeepsCount(node: MirNode, declared: map<string, Shape>, shapes: ShapeMap, maxSeqLen: nat)
    requires ReadsOne(node.op) && node.op.x in shapes && Rearranges(node, declared, shapes[node.op.x])
    ensures Product(YieldedShape(node, declared, shapes, maxSeqLen)) == Product(shapes[node.op.x])
  {
    if node.op.Reshape? {
      ReshapeKeepsCount(node.op, node.shape, declared, shapes[node.op.x]);
    } else {
      RuleKeepsCount(node, declared, shapes, maxSeqLen);
    }
  }

  lemma {:induction false} ReshapeKeepsCount(op: MirOp, nodeShape: Shape, declared: map<string, Shape>, x: Shape)
    requires op.Reshape? && ReshapeRearranges(op, nodeShape, declared, x)
    ensures Product(ReshapeTarget(op, nodeShape, declared)) == Product(x)
  {
    if op.x in declared && Positive(declared[op.x]) { StrategyKeepsCount(op, nodeShape, declared); }
  }

  lemma {:induction false} RuleKeepsCount(node: MirNode, declared: map<string, Shape>, shapes: ShapeMap, maxSeqLen: nat)
    requires ReadsOne(node.op) && !node.op.Reshape? && node.op.x in shapes && Rearranges(node, declared, shapes[node.op.x])
    ensures Product(RuleShape(node.id, node.op, shapes, maxSeqLen)) == Product(shapes[node.op.x])
  {
    var op, x := node.op, shapes[node.op.x];
    if op.ExpandDims? {
      ExpandKeepsCount(x, SortAxes(op.axes));
      assert RuleShape(node.id, op, shapes, maxSeqLen) == ExpandDimsShape(x, op.axes);
    } else if op.Squeeze? {
      SqueezeKeepsCountIff(x, op.axes);
      assert RuleShape(node.id, op, shapes, maxSeqLen) == SqueezeShape(x, op.axes);
    } else if op.Transpose? {
      TransposeKeepsCount(x, op.perm);
      assert RuleShape(node.id, op, shapes, maxSeqLen) == TransposeShape(x, op.perm);
    } else if op.Flatten2d? {
      FlattenKeepsCount(x, op.axis);
      assert RuleShape(node.id, op, shapes, maxSeqLen) == Flatten2dShape(x, op.axis);
    } else {
      assert RuleShape(node.id, op, shapes, maxSeqLen) == x;
    }
  }

  // ----- along a chain

  /** The shape after the operations of the nodes have been applied in turn. */
  function ChainShape(chain: seq<MirNode>, declared: map<string, Shape>, x: Shape, maxSeqLen: nat): Shape
    requires forall node | node in chain :: ReadsOne(node.op)
  {
    if chain == [] then x
    else
      var last := chain[|chain| - 1];
      assert last in chain && ReadsOne(last.op);
      YieldedShape(last, declared, map[last.op.x := ChainShape(chain[..|chain| - 1], declared, x, maxSeqLen)], maxSeqLen)
  }

  ghost predicate RearrangingChain(chain: seq<MirNode>, declared: map<string, Shape>, x: Shape, maxSeqLen: nat)
    requires forall node | node in chain :: ReadsOne(node.op)
  {
    chain == []
    || (&& RearrangingChain(chain[..|chain| - 1], declared, x, maxSeqLen)
        && Rearranges(chain[|chain| - 1], declared, ChainShape(chain[..|chain| - 1], declared, x, maxSeqLen)))
  }

  /** Through any chain of rearranging nodes the count of what is emitted is invariant. */
  lemma {:induction false} ChainKeepsCount(chain: seq<MirNode>, declared: map<string, Shape>, x: Shape, maxSeqLen: nat)
    requires forall node | node in chain :: ReadsOne(node.op)
    requires RearrangingChain(chain, declared, x, maxSeqLen)
    ensures Product(ChainShape(chain, declared, x, maxSeqLen)) == Product(x)
  {
    if chain != [] {
      var init, last := chain[..|chain| - 1], chain[|chain| - 1];
      assert last in chain;
      ChainKeepsCount(init, declared, x, maxSeqLen);
      RearrangingKeepsCount(last, declared, map[last.op.x := ChainShape(init, declared, x, maxSeqLen)], maxSeqLen);
    }
  }

  // ----- along a graph

  /** A node that rearranges its operand and is either settled by its rule or declared with the
      shape that is emitted. */
  ghost predicate RearrangingNode(nodes: seq<MirNode>, seeds: ShapeMap, maxSeqLen: nat, k: nat)
    requires k < |nodes|
  {
    var node, final := nodes[k], Forward(nodes, seeds, maxSeqLen, |nodes|);
    && node.id !in Forward(nodes, seeds, maxSeqLen, k)
    && ReadsOne(node.op) && node.op.x in final && Rearranges(node, DeclaredShapes(nodes), final[node.op.x])
    && (if node.shape == [] then !Contains(node.id, "input_ids") && (node.op.Reshape? ==> ZeroFree(node.op.target))
        else node.shape == YieldedShape(node, DeclaredShapes(nodes), final, maxSeqLen))
  }

  /** `path` walks through such nodes, each reading the one before it. */
  ghost predicate RearrangingPath(nodes: seq<MirNode>, seeds: ShapeMap, maxSeqLen: nat, path: seq<nat>) {
    && path != []
    && (forall i | 0 <= i < |path| :: path[i] < |nodes| && RearrangingNode(nodes, seeds, maxSeqLen, path[i]))
    && (forall i | 0 < i < |path| :: nodes[path[i]].op.x == nodes[path[i - 1]].id)
  }

  lemma {:induction false} DeclaredIsRecorded(nodes: seq<MirNode>, seeds: ShapeMap, maxSeqLen: nat, k: nat)
    requires k < |nodes| && nodes[k].shape != [] && nodes[k].id !in Forward(nodes, seeds, maxSeqLen, k)
    ensures Known(Forward(nodes, seeds, maxSeqLen, |nodes|), nodes[k].id) == nodes[k].shape
  {
    ForwardGrows(nodes, seeds, maxSeqLen, k + 1, |nodes|);
    assert nodes[k].id in Forward(nodes, seeds, maxSeqLen, k + 1);
  }

  lemma {:induction false} NodeKeepsCount(nodes: seq<MirNode>, seeds: ShapeMap, maxSeqLen: nat, k: nat)
    requires k < |nodes| && UniqueIds(nodes) && Topological(nodes)
    requires RearrangingNode(nodes, seeds, maxSeqLen, k)
    ensures var final := Forward(nodes, seeds, maxSeqLen, |nodes|);
            Product(Known(final, nodes[k].id)) == Product(final[nodes[k].op.x])
  {
    var node, final := nodes[k], Forward(nodes, seeds, maxSeqLen, |nodes|);
    RearrangingKeepsCount(node, DeclaredShapes(nodes), final, maxSeqLen);
    if node.shape == [] {
      TopologicalReadsSettled(nodes, seeds, maxSeqLen, k);
      SettledIsFixed(nodes, seeds, maxSeqLen, k);
    } else {
      DeclaredIsRecorded(nodes, seeds, maxSeqLen, k);
    }
  }

  /** The count inferred at the end of such a path is the count at its start. */
  lemma {:induction false} PathKeepsCount(nodes: seq<MirNode>, seeds: ShapeMap, maxSeqLen: nat, path: seq<nat>)
    requires UniqueIds(nodes) && Topological(nodes)
    requires RearrangingPath(nodes, seeds, maxSeqLen, path)
    ensures var final := Forward(nodes, seeds, maxSeqLen, |nodes|);
            Product(Known(final, nodes[path[|path| - 1]].id)) == Product(final[nodes[path[0]].op.x])
  {
    NodeKeepsCount(nodes, seeds, maxSeqLen, path[|path| - 1]);
    if |path| > 1 {
      var init := path[..|path| - 1];
      forall i | 0 < i < |init| ensures nodes[init[i]].op.x == nodes[init[i - 1]].id {
        assert nodes[path[i]].op.x == nodes[path[i - 1]].id;
      }
      PathKeepsCount(nodes, seeds, maxSeqLen, init);
      assert nodes[path[|path| - 1]].op.x == nodes[path[|path| - 2]].id;
    }
  }

  // ----- the recorded and the emitted shape of a reshape

  /** A reshape that is emitted and not seeded has, in the final map, the shape it is emitted
      with exactly if its target is concrete and no other shape is declared, or its declared
      shape stands in for a target with zeros. */
  lemma {:induction false} ReshapeRecordedAsEmitted(nodes: seq<MirNode>, seeds: ShapeMap, maxSeqLen: nat, k: nat)
    requires k < |nodes| && UniqueIds(nodes) && nodes[k].op.Reshape?
    requires nodes[k].id !in Forward(nodes, seeds, maxSeqLen, k)
    requires ZeroFree(ReshapeTarget(nodes[k].op, nodes[k].shape, DeclaredShapes(nodes)))
    ensures var (node, emitted) := (nodes[k], ReshapeTarget(nodes[k].op, nodes[k].shape, DeclaredShapes(nodes)));
            Known(Forward(nodes, seeds, maxSeqLen, |nodes|), node.id) == emitted <==>
              if node.shape == [] && Contains(node.id, "input_ids") then emitted == [1, maxSeqLen]
              else if node.shape == [] then ZeroFree(node.op.target)
              else if ZeroFree(node.op.target) then node.shape == node.op.target
              else UsableShape(node.shape, node.op.target)
  {
    if nodes[k].shape == [] {
      LaterStepsKeep(nodes, seeds, maxSeqLen, k + 1, |nodes|, nodes[k].id);
    } else {
      DeclaredIsRecorded(nodes, seeds, maxSeqLen, k);
      EmittedDiffers(nodes[k].op, nodes[k].shape, DeclaredShapes(nodes));
    }
  }

  /** A shape that cannot stand in for the target is never what a target with zeros becomes. */
  lemma {:induction false} EmittedDiffers(op: MirOp, nodeShape: Shape, shapes: ShapeMap)
    requires op.Reshape? && nodeShape != [] && ZeroFree(ReshapeTarget(op, nodeShape, shapes))
    ensures !ZeroFree(op.target) ==> (ReshapeTarget(op, nodeShape, shapes) == nodeShape <==> UsableShape(nodeShape, op.target))
  {
    if !ZeroFree(op.target) && !UsableShape(nodeShape, op.target) {
      assert |ReshapeTarget(op, nodeShape, shapes)| == |op.target|;
    }
  }

  const SOURCE: MirNode := MirNode("a", Fill("a", [3, 4]), [3, 4], Fp16)

  const ZEROED: MirNode := MirNode("b", Reshape("b", "a", [0, 12]), [], Fp16)

  /** For 3 by 4 elements and a target of 0 by 12 the final map says 0 by 12; 1 by 12 is emitted. */
  lemma {:induction false} RecordedZeroCounterexample()
    ensures Known(Forward([SOURCE, ZEROED], map[], 8, 2), "b") == [0, 12]
    ensures ReshapeTarget(ZEROED.op, [], DeclaredShapes([SOURCE, ZEROED])) == [1, 12]
  {
    var nodes := [SOURCE, ZEROED];
    assert !Contains("b", "input_ids");
    assert Forward(nodes, map[], 8, 0) == map[];
    assert Forward(nodes, map[], 8, 1) == map["a" := [3, 4]];
    assert nodes[..1] == [SOURCE] && [SOURCE][..0] == [];
    assert DeclaredShapes([SOURCE]) == map["a" := [3, 4]];
    assert DeclaredShapes(nodes) == map["a" := [3, 4]];
    ZeroByTwelve();
  }

  lemma {:induction false} ZeroByTwelve()
    ensures Resolved([0, 12], [3, 4], Some(3)) == [1, 12]
  {
    var t: Shape := [0, 12];
    assert t[..1] == [0] && t[..1][..0] == [];
    assert ReshapeResolution.Zeros(t[..1]) == [0] && NonZeroProduct(t[..1]) == 1;
    assert ReshapeResolution.Zeros(t) == [0] && NonZeroProduct(t) == 12;
    ProductTwo(3, 4);
    ProductTwo(3, 12);
    var filled := Positional(t, [3, 4]);
    assert filled.Some? && filled.value[0] == [3, 4][0] && filled.value[1] == 12;
    assert filled.value == [3, 12];
    assert t[0 := 1] == [1, 12];
  }
}
