/** What the inputs and outputs of a lowered graph are described as, and which shapes seed the
    forward pass. */
module Interface {
  import opened Wrappers
  import opened Strings
  import opened Weights
  import opened ShapeOps
  import opened Mir
  import opened ShapeInference
  import opened ForwardShapes
  import opened AliasKeys
  import opened Compat
  import opened Lowering

  /** Node `k` is the last one of this id. */
  ghost predicate Bears(nodes: seq<MirNode>, id: string, k: nat) {
    k < |nodes| && nodes[k].id == id && forall j | k < j < |nodes| :: nodes[j].id != id
  }

  ghost predicate NoNode(nodes: seq<MirNode>, id: string) { forall k | 0 <= k < |nodes| :: nodes[k].id != id }

  lemma {:induction false} FoundIsLast(nodes: seq<MirNode>, id: string, k: nat)
    ensures Bears(nodes, id, k) ==> FindNode(nodes, id) == Some(nodes[k])
    ensures FindNode(nodes, id) == None <==> NoNode(nodes, id)
  {
    var found := FindNode(nodes, id);
    if found.Some? {
      var i :| 0 <= i < |nodes| && nodes[i] == found.value;
      assert !NoNode(nodes, id);
    } else {
      forall i | 0 <= i < |nodes| ensures nodes[i].id != id { assert nodes[i] in nodes; }
    }
    if Bears(nodes, id, k) {
      assert nodes[k] in nodes;
      var i :| 0 <= i < |nodes| && nodes[i] == found.value && forall j | i < j < |nodes| :: nodes[j].id != id;
      assert nodes[i].id == id;
    }
  }

  /** The shape of an input: the declared one, or one row of token ids, or one element. */
  ghost function ShapeOfInput(node: MirNode, maxSeqLen: nat): Shape {
    if node.shape != [] then node.shape else if Has(node.id, "input_ids") then [1, maxSeqLen] else [1]
  }

  /** An input with a node has that node's dtype. One without is described by the shape given for
      it, and holds integers exactly if its name speaks of positions, ids or masks; without such a
      shape it is missing. */
  lemma {:induction false} InputDescribed(graph: MirGraph, id: string, maxSeqLen: nat, k: nat)
    ensures Bears(graph.nodes, id, k) ==>
      InputDesc(graph, id, maxSeqLen) == Ok(TensorDesc(id, ShapeOfInput(graph.nodes[k], maxSeqLen), graph.nodes[k].dtype))
    ensures NoNode(graph.nodes, id) && id in graph.inputShapes ==>
      InputDesc(graph, id, maxSeqLen)
      == Ok(TensorDesc(id, graph.inputShapes[id], if Has(id, "pos") || Has(id, "_ids") || Has(id, "mask") then Int32 else Fp16))
    ensures NoNode(graph.nodes, id) && id !in graph.inputShapes ==> InputDesc(graph, id, maxSeqLen) == Err(MissingInput(id))
  {
    FoundIsLast(graph.nodes, id, k);
    ContainsIff(id, "input_ids");
    SpeaksOfIntegers(id);
  }

  lemma {:induction false} SpeaksOfIntegers(id: string)
    ensures Contains(id, "position") || Contains(id, "pos") || Contains(id, "input_ids") || Contains(id, "_ids")
            || Contains(id, "attention_mask") || Contains(id, "mask")
            <==> Has(id, "pos") || Has(id, "_ids") || Has(id, "mask")
  {
    ContainsIff(id, "pos");
    ContainsIff(id, "_ids");
    ContainsIff(id, "mask");
    ContainsIff(id, "position");
    ContainsIff(id, "input_ids");
    ContainsIff(id, "attention_mask");
    if Has(id, "position") { PartOccurs(id, "position", "pos", 0); }
    if Has(id, "input_ids") { PartOccurs(id, "input_ids", "_ids", 5); }
    if Has(id, "attention_mask") { PartOccurs(id, "attention_mask", "mask", 10); }
  }

  lemma {:induction false} PartOccurs(s: string, whole: string, part: string, at: nat)
    requires Has(s, whole) && OccursAt(whole, part, at)
    ensures Has(s, part)
  {
    var i: nat :| OccursAt(s, whole, i);
    forall q | 0 <= q < |part| ensures s[i + at..i + at + |part|][q] == part[q] {
      assert whole[at..at + |part|][q] == part[q] && s[i..i + |whole|][at + q] == whole[at + q];
    }
    assert OccursAt(s, part, i + at);
  }

  /** An output has its node's dtype and the settled shape, or what the rule gives if it has none. */
  lemma {:induction false} OutputDescribed(graph: MirGraph, shapes: ShapeMap, id: string, maxSeqLen: nat, k: nat)
    ensures Bears(graph.nodes, id, k) && id in shapes ==>
      OutputDesc(graph, shapes, id, maxSeqLen) == Ok(TensorDesc(id, shapes[id], graph.nodes[k].dtype))
    ensures Bears(graph.nodes, id, k) && id !in shapes && !Fails(graph.nodes[k], shapes) ==>
      var (node, desc) := (graph.nodes[k], OutputDesc(graph, shapes, id, maxSeqLen));
      desc == Ok(TensorDesc(id, if node.shape != [] then node.shape
                                else if Has(id, "input_ids") then [1, maxSeqLen]
                                else RuleShape(id, node.op, shapes, maxSeqLen), node.dtype))
    ensures NoNode(graph.nodes, id) ==> OutputDesc(graph, shapes, id, maxSeqLen) == Err(MissingOutput(id))
  {
    FoundIsLast(graph.nodes, id, k);
    ContainsIff(id, "input_ids");
  }

  /** The interface is described name by name, or the first name that cannot be is reported. */
  lemma {:induction false} DescribedEach(ids: seq<string>, describe: string -> Result<TensorDesc, BridgeError>)
    ensures match Described(ids, describe)
            case Ok(descs) => |descs| == |ids| && forall i | 0 <= i < |ids| :: describe(ids[i]) == Ok(descs[i])
            case Err(e) => exists k :: 0 <= k < |ids| && describe(ids[k]) == Err(e) && forall j | 0 <= j < k :: describe(ids[j]).Ok?
  {
    if ids != [] && describe(ids[0]).Ok? {
      DescribedEach(ids[1..], describe);
      if Described(ids[1..], describe).Err? {
        var e := Described(ids[1..], describe).error;
        var k :| 0 <= k < |ids[1..]| && describe(ids[1..][k]) == Err(e) && forall j | 0 <= j < k :: describe(ids[1..][j]).Ok?;
        forall j | 0 <= j < k + 1 ensures describe(ids[j]).Ok? { if j > 0 { assert ids[j] == ids[1..][j - 1]; } }
        assert describe(ids[k + 1]) == Err(e);
      } else {
        forall i | 0 <= i < |ids| ensures describe(ids[i]) == Ok(Described(ids, describe).value[i]) {
          if i > 0 { assert ids[i] == ids[1..][i - 1]; }
        }
      }
    }
  }

  // ----- failing rules

  /** Entry `i` of a slice has neither an end nor a mask in its place. */
  ghost predicate Endless(op: MirOp, i: nat)
    requires op.SliceByIndex?
  {
    |op.end| <= i < |op.begin| && (i < |op.endMask| ==> !op.endMask[i])
  }

  /** A dimension is split into no parts, an entry of a slice has no end, or a shape is flattened
      beyond its rank. */
  ghost predicate Unrunnable(op: MirOp, shapes: ShapeMap) {
    || (op.Split? && op.x in shapes && op.axis < |shapes[op.x]| && op.numSplits == 0)
    || (op.SliceByIndex? && op.x in shapes && exists i: nat :: Endless(op, i))
    || (op.Flatten2d? && op.x in shapes && op.axis > |shapes[op.x]|)
  }

  /** The pass is aborted at a node exactly if it has no shape yet, its name is no guess and its
      rule cannot be run. */
  lemma {:induction false} FailsIff(node: MirNode, shapes: ShapeMap)
    ensures Fails(node, shapes) <==>
      node.id !in shapes && node.shape == [] && !Has(node.id, "input_ids") && Unrunnable(node.op, shapes)
  {
    ContainsIff(node.id, "input_ids");
    if node.op.SliceByIndex? { SliceRangeIff(node.op); }
  }

  lemma {:induction false} SliceRangeIff(op: MirOp)
    requires op.SliceByIndex?
    ensures !SliceInRange(op) <==> exists i: nat :: Endless(op, i)
  {
    forall i: nat ensures Endless(op, i) <==> i < |op.begin| && !(i < |op.end| || BoolAt(op.endMask, i)) {}
    if !SliceInRange(op) {
      var i: nat :| i < |op.begin| && !(i < |op.end| || BoolAt(op.endMask, i));
      assert Endless(op, i);
    }
  }

  // ----- seeds

  /** The inputs are seeded with the shapes they are described by, where there is one, and nothing
      else is. */
  lemma {:induction false} InputSeeded(graph: MirGraph, maxSeqLen: nat, n: nat, id: string, k: nat)
    requires n <= |graph.inputs|
    ensures var shape := Lookup(SeedInputs(graph, maxSeqLen, n), id);
      && (id !in graph.inputs[..n] ==> shape == None)
      && (id in graph.inputs[..n] && Bears(graph.nodes, id, k) ==> shape == Some(ShapeOfInput(graph.nodes[k], maxSeqLen)))
      && (id in graph.inputs[..n] && NoNode(graph.nodes, id) ==>
            shape == if id in graph.inputShapes then Some(graph.inputShapes[id]) else None)
  {
    if n > 0 {
      InputSeeded(graph, maxSeqLen, n - 1, id, k);
      assert graph.inputs[..n] == graph.inputs[..n - 1] + [graph.inputs[n - 1]];
      FoundIsLast(graph.nodes, id, k);
      ContainsIff(id, "input_ids");
    }
  }

  /** The shape that seeds a constant without one of its own. */
  ghost function Answer(node: MirNode, resolver: Resolver): Option<Shape> {
    if !node.op.Const? || node.shape != [] then None
    else match resolver(node.op.valuePath)
         case Some(wd) => if wd.shape == [] then None else Some(wd.shape)
         case None => if "scalar://" <= node.op.valuePath then Some([1]) else None
  }

  /** Node `k` is the last constant of this id for which there is such a shape. */
  ghost predicate AnswersLast(nodes: seq<MirNode>, resolver: Resolver, n: nat, id: string, k: nat)
    requires n <= |nodes|
  {
    && k < n && nodes[k].id == id && Answer(nodes[k], resolver).Some?
    && forall j | k < j < n && nodes[j].id == id :: Answer(nodes[j], resolver).None?
  }

  lemma {:induction false} ConstSeeded(nodes: seq<MirNode>, resolver: Resolver, shapes: ShapeMap, n: nat, id: string, k: nat)
    requires n <= |nodes|
    ensures var shape := Lookup(SeedConsts(nodes, resolver, shapes, n), id);
      && (AnswersLast(nodes, resolver, n, id, k) ==> shape == Answer(nodes[k], resolver))
      && ((forall j | 0 <= j < n && nodes[j].id == id :: Answer(nodes[j], resolver).None?) ==> shape == Lookup(shapes, id))
  {
    if n > 0 { ConstSeeded(nodes, resolver, shapes, n - 1, id, k); }
  }

  /** In topological order each node ends with the shape that was seeded for it, or else the one it
      declares, or else what its rule gives on the final map. */
  lemma {:induction false} FinalShape(nodes: seq<MirNode>, seeds: ShapeMap, maxSeqLen: nat, k: nat)
    requires k < |nodes| && UniqueIds(nodes) && Topological(nodes)
    ensures var (node, final) := (nodes[k], Forward(nodes, seeds, maxSeqLen, |nodes|));
      if node.id in seeds then Known(final, node.id) == seeds[node.id]
      else if node.shape != [] then Known(final, node.id) == node.shape
      else if Has(node.id, "input_ids") then Known(final, node.id) == [1, maxSeqLen]
      else Known(final, node.id) == RuleShape(node.id, node.op, final, maxSeqLen)
  {
    var node := nodes[k];
    ForwardGrows(nodes, seeds, maxSeqLen, 0, |nodes|);
    ContainsIff(node.id, "input_ids");
    if node.id !in seeds {
      LaterStepsKeep(nodes, seeds, maxSeqLen, 0, k, node.id);
      assert node.id !in Forward(nodes, seeds, maxSeqLen, k);
      if node.shape == [] {
        TopologicalReadsSettled(nodes, seeds, maxSeqLen, k);
        SettledIsFixed(nodes, seeds, maxSeqLen, k);
      } else {
        LaterStepsKeep(nodes, seeds, maxSeqLen, k + 1, |nodes|, node.id);
      }
    }
  }
}
