/** What the forward pass records of a node that comes before some of its operands. */
module EarlyShapes {
  import opened Wrappers
  import opened Strings
  import opened Weights
  import opened ShapeOps
  import opened Mir
  import opened ShapeInference
  import opened ForwardShapes

  /** What is known before is known later, and what is new is not empty. */
  ghost predicate Extends(before: ShapeMap, final: ShapeMap) {
    forall id ::
      && (id in before ==> Lookup(final, id) == Some(before[id]))
      && (Late(id, before, final) ==> final[id] != [])
  }

  ghost predicate Late(id: string, before: ShapeMap, final: ShapeMap) { id !in before && id in final }

  /** Broadcasting with the late operand gives the early shape. */
  ghost predicate Absorbs(early: Shape, late: Shape) { Broadcast(early, late).Some? && Covers(early, late) }

  /** A product keeps the shape of its left operand. */
  ghost predicate ProductKeeps(x: Shape, y: Shape) {
    |x| >= 2 && |y| >= 2 ==>
      y[|y| - 1] == x[|x| - 1] && (Broadcast(Batch(x), Batch(y)).None? || Covers(Batch(x), Batch(y)))
  }

  /** A convolution keeps the shape of its input. */
  ghost predicate ConvolutionKeeps(x: Shape, weight: Shape, strides: seq<nat>, pads: seq<nat>, dilations: seq<nat>) {
    && |x| == 2 + Max(|strides|, 1) && x[1] == GetOr(weight, 0, 0)
    && forall i: nat | i < |x| - 2 :: ConvDim(x, weight, strides, pads, dilations, i) == x[2 + i]
  }

  /** With a late operand, the first shape known early must cover all three if they broadcast
      together, be `a` if they do not, and stay the first if one remains unknown. */
  ghost predicate SelectionKeeps(early: Shape, c: Shape, a: Shape, b: Shape) {
    if a == [] || b == [] || c == [] then FirstShaped(c, a, b) == early
    else if Then(Broadcast(a, b), c).None? then a == early
    else Covers(early, a) && Covers(early, b) && Covers(early, c)
  }

  /** The operands that were unknown make no difference to the shape an operation was given. */
  ghost predicate StaysRight(op: MirOp, before: ShapeMap, final: ShapeMap) {
    match op
    case Binary(_, _, x, y) =>
      && (Late(x, before, final) ==> Absorbs(Known(before, y), final[x]))
      && (Late(y, before, final) ==> Absorbs(Known(before, x), final[y]) || Broadcast(Known(before, x), final[y]).None?)
    case Where(_, c, x, y) =>
      Late(c, before, final) || Late(x, before, final) || Late(y, before, final) ==>
        SelectionKeeps(FirstShaped(Known(before, c), Known(before, x), Known(before, y)), Known(final, c), Known(final, x), Known(final, y))
    case MatMul(_, x, y, _) => Late(y, before, final) ==> ProductKeeps(Known(before, x), final[y])
    case Gather(_, x, indices, axis) =>
      Late(indices, before, final) && 0 <= axis < |Known(before, x)| ==> final[indices] == [Known(before, x)[axis]]
    case Concat(_, values, axis) =>
      values != [] && axis < |Known(before, values[0])| ==> forall v | v in values && Late(v, before, final) :: GetOr(final[v], axis, 0) == 0
    case Conv(_, x, kernel, strides, pads, dilations) =>
      Late(kernel, before, final) ==> ConvolutionKeeps(Known(before, x), final[kernel], strides, pads, dilations)
    case _ => true
  }

  // ----- one rule on both maps

  lemma {:induction false} BroadcastAbsorbs(early: Shape, late: Shape)
    ensures Broadcast(early, late) == Some(early) <==> Absorbs(early, late)
    ensures Broadcast(late, early) == Some(early) <==> Absorbs(early, late)
  {
    BroadcastCommutes(early, late);
    BroadcastDims(early, late);
    if Absorbs(early, late) { SameDims(Broadcast(early, late).value, early); }
  }

  lemma {:induction false} BinaryStays(x: Option<Shape>, y: Option<Shape>, a: Shape, b: Shape)
    requires (x.Some? ==> x.value == a) && (y.Some? ==> y.value == b)
    requires BinaryShape(OrUnknown(x), OrUnknown(y)) != []
    ensures x.None? && a != [] ==> (BinaryShape(a, b) == BinaryShape([], OrUnknown(y)) <==> y.Some? && Absorbs(b, a))
    ensures y.None? && b != [] ==> (BinaryShape(a, b) == BinaryShape(OrUnknown(x), []) <==> Absorbs(a, b) || Broadcast(a, b).None?)
  {
    BroadcastAbsorbs(a, b);
    BroadcastAbsorbs(b, a);
    BroadcastTwice(a, a);
  }

  lemma {:induction false} BinaryKeeps(name: string, op: MirOp, before: ShapeMap, final: ShapeMap, maxSeqLen: nat)
    requires op.Binary? && Extends(before, final) && RuleShape(name, op, before, maxSeqLen) != []
    ensures RuleShape(name, op, final, maxSeqLen) == RuleShape(name, op, before, maxSeqLen) <==> StaysRight(op, before, final)
  {
    assert Late(op.x, before, final) ==> final[op.x] != [];
    assert Late(op.y, before, final) ==> final[op.y] != [];
    BinaryStays(Lookup(before, op.x), Lookup(before, op.y), Known(final, op.x), Known(final, op.y));
  }

  lemma {:induction false} SelectionStays(early: Shape, c: Shape, a: Shape, b: Shape)
    requires early in [a, b, c]
    ensures WhereShape(c, a, b) == early <==> SelectionKeeps(early, c, a, b)
  {
    if Then(Broadcast(a, b), c).Some? { CoversAll(a, b, c, early); }
  }

  lemma {:induction false} WhereKeeps(name: string, op: MirOp, before: ShapeMap, final: ShapeMap, maxSeqLen: nat)
    requires op.Where? && Extends(before, final) && RuleShape(name, op, before, maxSeqLen) != []
    ensures RuleShape(name, op, final, maxSeqLen) == RuleShape(name, op, before, maxSeqLen) <==> StaysRight(op, before, final)
  {
    var early := FirstShaped(Known(before, op.condition), Known(before, op.x), Known(before, op.y));
    assert Known(before, op.x) == [] || Known(final, op.x) == Known(before, op.x);
    assert Known(before, op.y) == [] || Known(final, op.y) == Known(before, op.y);
    assert Known(before, op.condition) == [] || Known(final, op.condition) == Known(before, op.condition);
    if Late(op.condition, before, final) || Late(op.x, before, final) || Late(op.y, before, final) {
      SelectionStays(early, Known(final, op.condition), Known(final, op.x), Known(final, op.y));
    }
  }

  lemma {:induction false} ProductStays(x: Shape, y: Shape)
    ensures MatMulShape(x, y) == x <==> ProductKeeps(x, y)
  {
    if |x| >= 2 && |y| >= 2 {
      MatMulParts(x, y);
      BroadcastAbsorbs(Batch(x), Batch(y));
      assert x == Batch(x) + [x[|x| - 2], x[|x| - 1]];
      var r := MatMulShape(x, y);
      assert r[|r| - 1] == y[|y| - 1];
    }
  }

  lemma {:induction false} GatherStays(x: Shape, indices: Shape, axis: int)
    ensures GatherShape(x, indices, axis) == x <==> (0 <= axis < |x| ==> indices == [x[axis]])
  {
    if 0 <= axis < |x| {
      var r := GatherShape(x, indices, axis);
      assert x == x[..axis] + [x[axis]] + x[axis + 1..];
      if |indices| == 1 { assert r[axis] == indices[0]; }
    }
  }

  lemma {:induction false} ConvolutionStays(x: Shape, weight: Shape, strides: seq<nat>, pads: seq<nat>, dilations: seq<nat>)
    requires x != []
    ensures ConvShape(x, weight, strides, pads, dilations) == x <==> ConvolutionKeeps(x, weight, strides, pads, dilations)
  {
    var r := ConvShape(x, weight, strides, pads, dilations);
    assert r[0] == x[0] && r[1] == GetOr(weight, 0, 0);
    forall i: nat | i < |r| - 2 ensures r[2 + i] == ConvDim(x, weight, strides, pads, dilations, i) {}
    if ConvolutionKeeps(x, weight, strides, pads, dilations) {
      forall j | 0 <= j < |x| ensures r[j] == x[j] {
        if j >= 2 { assert r[2 + (j - 2)] == ConvDim(x, weight, strides, pads, dilations, j - 2); }
      }
    } else if |x| == |r| && x[1] == r[1] {
      var i: nat :| i < |x| - 2 && ConvDim(x, weight, strides, pads, dilations, i) != x[2 + i];
      assert r[2 + i] != x[2 + i];
    }
  }

  /** More operands known along the axis can only add to the total. */
  lemma {:induction false} TotalsCompare(before: ShapeMap, final: ShapeMap, values: seq<string>, axis: nat)
    requires Extends(before, final)
    ensures AxisTotal(OperandShapes(before, values), axis) <= AxisTotal(OperandShapes(final, values), axis)
    ensures AxisTotal(OperandShapes(before, values), axis) == AxisTotal(OperandShapes(final, values), axis)
            <==> forall v | v in values && Late(v, before, final) :: GetOr(final[v], axis, 0) == 0
  {
    if values != [] {
      var init, last := values[..|values| - 1], values[|values| - 1];
      TotalsCompare(before, final, init, axis);
      assert values == init + [last];
      assert OperandShapes(before, values)[..|init|] == OperandShapes(before, init);
      assert OperandShapes(final, values)[..|init|] == OperandShapes(final, init);
      assert last in before ==> Lookup(final, last) == Some(before[last]);
    }
  }

  lemma {:induction false} ConcatStays(first: Shape, before: ShapeMap, final: ShapeMap, values: seq<string>, axis: nat)
    requires Extends(before, final)
    ensures ConcatShape(first, OperandShapes(final, values), axis) == ConcatShape(first, OperandShapes(before, values), axis)
            <==> (axis < |first| ==> forall v | v in values && Late(v, before, final) :: GetOr(final[v], axis, 0) == 0)
  {
    TotalsCompare(before, final, values, axis);
    if axis < |first| {
      assert ConcatShape(first, OperandShapes(final, values), axis)[axis] == AxisTotal(OperandShapes(final, values), axis);
      assert ConcatShape(first, OperandShapes(before, values), axis)[axis] == AxisTotal(OperandShapes(before, values), axis);
    }
  }

  lemma {:induction false} CombiningKeeps(name: string, op: MirOp, before: ShapeMap, final: ShapeMap, maxSeqLen: nat)
    requires op.MatMul? || op.Gather? || op.Concat? || op.Conv?
    requires Extends(before, final) && RuleShape(name, op, before, maxSeqLen) != []
    ensures RuleShape(name, op, final, maxSeqLen) == RuleShape(name, op, before, maxSeqLen) <==> StaysRight(op, before, final)
  {
    if op.Concat? {
      assert op.values[0] in before;
      ConcatStays(before[op.values[0]], before, final, op.values, op.axis);
    } else {
      assert op.x in before && Lookup(final, op.x) == Some(before[op.x]);
      if op.MatMul? && op.y in final { ProductStays(before[op.x], final[op.y]); }
      if op.Gather? && op.indices in final { GatherStays(before[op.x], final[op.indices], op.gatherAxis); }
      if op.Conv? && op.kernel in final && op.kernel !in before {
        ConvolutionStays(before[op.x], final[op.kernel], op.strides, op.padAmounts, op.dilations);
      }
    }
  }

  lemma {:induction false} OthersKeep(name: string, op: MirOp, before: ShapeMap, final: ShapeMap, maxSeqLen: nat)
    requires !op.Const? && !SeveralOperands(op) && !op.Concat?
    requires Extends(before, final) && RuleShape(name, op, before, maxSeqLen) != []
    ensures RuleShape(name, op, final, maxSeqLen) == RuleShape(name, op, before, maxSeqLen)
  {
    if Restructures(op) {
      assert op.x in before && Lookup(final, op.x) == Some(before[op.x]);
      OneDepends(name, op, before, final, maxSeqLen);
    } else if op.Stack? {
      assert op.values[0] in before && Lookup(final, op.values[0]) == Some(before[op.values[0]]);
    } else {
      forall id | id in before ensures Known(final, id) == Known(before, id) { assert Lookup(final, id) == Some(before[id]); }
    }
  }

  /** An operation that was given a shape early is given it again exactly if that stays right. */
  lemma {:induction false} RuleKeeps(name: string, op: MirOp, before: ShapeMap, final: ShapeMap, maxSeqLen: nat)
    requires !op.Const? && Extends(before, final) && RuleShape(name, op, before, maxSeqLen) != []
    ensures RuleShape(name, op, final, maxSeqLen) == RuleShape(name, op, before, maxSeqLen) <==> StaysRight(op, before, final)
  {
    if op.Binary? {
      BinaryKeeps(name, op, before, final, maxSeqLen);
    } else if op.Where? {
      WhereKeeps(name, op, before, final, maxSeqLen);
    } else if op.MatMul? || op.Gather? || op.Concat? || op.Conv? {
      CombiningKeeps(name, op, before, final, maxSeqLen);
    } else {
      OthersKeep(name, op, before, final, maxSeqLen);
    }
  }

  // ----- the recorded shape

  lemma {:induction false} PassExtends(nodes: seq<MirNode>, seeds: ShapeMap, maxSeqLen: nat, k: nat)
    requires k <= |nodes|
    ensures Extends(Forward(nodes, seeds, maxSeqLen, k), Forward(nodes, seeds, maxSeqLen, |nodes|))
  {
    var before, final := Forward(nodes, seeds, maxSeqLen, k), Forward(nodes, seeds, maxSeqLen, |nodes|);
    ForwardGrows(nodes, seeds, maxSeqLen, 0, k);
    ForwardGrows(nodes, seeds, maxSeqLen, k, |nodes|);
    forall id | Late(id, before, final) ensures final[id] != [] { ForwardEmpty(nodes, seeds, maxSeqLen, |nodes|, id); }
  }

  /** In whatever order the nodes come: a node that its rule has settled is recorded with the shape
      the rule gives on the final map exactly if what was unknown in its turn makes no difference. */
  lemma {:induction false} RecordedIsFinalIff(nodes: seq<MirNode>, seeds: ShapeMap, maxSeqLen: nat, k: nat)
    requires k < |nodes| && nodes[k].shape == []
    requires nodes[k].id !in Forward(nodes, seeds, maxSeqLen, k) && nodes[k].id in Forward(nodes, seeds, maxSeqLen, k + 1)
    ensures var (node, before, final) := (nodes[k], Forward(nodes, seeds, maxSeqLen, k), Forward(nodes, seeds, maxSeqLen, |nodes|));
            Known(final, node.id) == OutputShapeExplicit(node.id, node.op, [], final, maxSeqLen, None)
            <==> Contains(node.id, "input_ids") || node.op.Const? || StaysRight(node.op, before, final)
  {
    var node, before := nodes[k], Forward(nodes, seeds, maxSeqLen, k);
    ForwardGrows(nodes, seeds, maxSeqLen, k + 1, |nodes|);
    PassExtends(nodes, seeds, maxSeqLen, k);
    if !Contains(node.id, "input_ids") && !node.op.Const? {
      RuleKeeps(node.id, node.op, before, Forward(nodes, seeds, maxSeqLen, |nodes|), maxSeqLen);
    }
  }

  const EARLY: seq<MirNode> := [MirNode("a", Binary("add", "a", "x", "b"), [], Weights.Fp16),
                                MirNode("b", Reshape("b", "c", [5, 3]), [], Weights.Fp16)]

  /** Out of order, a node settled while one of its operands is unknown keeps that shape: the
      second pass changes nothing, though the rule would now give another one. */
  lemma {:induction false} EarlyShapeCounterexample()
    ensures var final := Forward(EARLY, map["x" := [3]], 8, 2);
            && Forward(EARLY, final, 8, 2) == final
            && Known(final, "a") == [3]
            && OutputShapeExplicit("a", EARLY[0].op, [], final, 8, None) == [5, 3]
            && !StaysRight(EARLY[0].op, map["x" := [3]], final)
  {
    var seeds: ShapeMap := map["x" := [3]];
    assert !Contains("a", "input_ids") && !Contains("b", "input_ids");
    assert Forward(EARLY, seeds, 8, 0) == seeds;
    assert Forward(EARLY, seeds, 8, 1) == seeds["a" := [3]];
    var final := Forward(EARLY, seeds, 8, 2);
    assert final == seeds["a" := [3]]["b" := [5, 3]];
    assert Forward(EARLY, final, 8, 0) == final;
    assert Forward(EARLY, final, 8, 1) == final;
    WiderOperand();
    assert "b" in ShapeRefs(EARLY[0].op);
  }

  lemma {:induction false} WiderOperand()
    ensures Broadcast([3], [5, 3]) == Some([5, 3])
  {
    BroadcastDims([3], [5, 3]);
    forall k: nat ensures Compatible(DimAt([3], k), DimAt([5, 3], k)) && Max(DimAt([3], k), DimAt([5, 3], k)) == DimAt([5, 3], k) {}
    SameDims(Broadcast([3], [5, 3]).value, [5, 3]);
  }
}
