/** The single forward pass that settles the shape of every node (`mir_to_compat.rs`). */
module ForwardShapes {
  import opened Wrappers
  import opened Strings
  import opened Weights
  import opened Mir
  import opened ShapeInference

  // ----- seeding

  function SeedInput(graph: MirGraph, shapes: ShapeMap, id: string, maxSeqLen: nat): ShapeMap {
    match FindNode(graph.nodes, id)
    case Some(node) =>
      var shape := InputShapeExplicit(node.id, node.shape, maxSeqLen, None);
      if shape != [] then shapes[node.id := shape] else shapes
    case None => if id in graph.inputShapes then shapes[id := graph.inputShapes[id]] else shapes
  }

  function SeedInputs(graph: MirGraph, maxSeqLen: nat, k: nat): ShapeMap
    requires k <= |graph.inputs|
  {
    if k == 0 then map[] else SeedInput(graph, SeedInputs(graph, maxSeqLen, k - 1), graph.inputs[k - 1], maxSeqLen)
  }

  function SeedConst(node: MirNode, resolver: Resolver, shapes: ShapeMap): ShapeMap {
    if !node.op.Const? || node.shape != [] then shapes
    else match resolver(node.op.valuePath)
         case Some(wd) => if wd.shape != [] then shapes[node.id := wd.shape] else shapes
         case None => if "scalar://" <= node.op.valuePath then shapes[node.id := [1]] else shapes
  }

  function SeedConsts(nodes: seq<MirNode>, resolver: Resolver, shapes: ShapeMap, k: nat): ShapeMap
    requires k <= |nodes|
  {
    if k == 0 then shapes else SeedConst(nodes[k - 1], resolver, SeedConsts(nodes, resolver, shapes, k - 1))
  }

  // ----- the forward loop

  function Settle(node: MirNode, shapes: ShapeMap, maxSeqLen: nat): ShapeMap {
    if node.id in shapes then shapes
    else if node.shape != [] then shapes[node.id := node.shape]
    else
      var shape := OutputShapeExplicit(node.id, node.op, node.shape, shapes, maxSeqLen, None);
      if shape != [] then shapes[node.id := shape] else shapes
  }

  /** The map after the first `k` nodes. */
  function Forward(nodes: seq<MirNode>, shapes: ShapeMap, maxSeqLen: nat, k: nat): ShapeMap
    requires k <= |nodes|
  {
    if k == 0 then shapes else Settle(nodes[k - 1], Forward(nodes, shapes, maxSeqLen, k - 1), maxSeqLen)
  }

  function Seeds(graph: MirGraph, resolver: Resolver, maxSeqLen: nat): ShapeMap {
    SeedConsts(graph.nodes, resolver, SeedInputs(graph, maxSeqLen, |graph.inputs|), |graph.nodes|)
  }

  function NodeShapes(graph: MirGraph, resolver: Resolver, maxSeqLen: nat): ShapeMap {
    Forward(graph.nodes, Seeds(graph, resolver, maxSeqLen), maxSeqLen, |graph.nodes|)
  }

  // ----- runs that a rule aborts

  /** The rule of the node is run on this map and fails. */
  predicate Fails(node: MirNode, shapes: ShapeMap) {
    node.id !in shapes && node.shape == [] && !Contains(node.id, "input_ids") && Panics(node.op, shapes)
  }

  ghost predicate FailsAt(nodes: seq<MirNode>, seeds: ShapeMap, maxSeqLen: nat, k: nat)
    requires k < |nodes|
  {
    Fails(nodes[k], Forward(nodes, seeds, maxSeqLen, k))
  }

  ghost predicate Completes(nodes: seq<MirNode>, seeds: ShapeMap, maxSeqLen: nat) {
    forall k | 0 <= k < |nodes| :: !FailsAt(nodes, seeds, maxSeqLen, k)
  }

  /** The first node whose rule fails has this id. */
  ghost predicate Aborts(nodes: seq<MirNode>, seeds: ShapeMap, maxSeqLen: nat, id: string) {
    exists k | 0 <= k < |nodes| ::
      && FailsAt(nodes, seeds, maxSeqLen, k) && nodes[k].id == id
      && forall j | 0 <= j < k :: !FailsAt(nodes, seeds, maxSeqLen, j)
  }

  /** The settled shapes, or the id of the node whose rule aborts the run. */
  method InferNodeShapes(graph: MirGraph, resolver: Resolver, maxSeqLen: nat) returns (r: Result<ShapeMap, string>)
    ensures r.Ok? ==> r.value == NodeShapes(graph, resolver, maxSeqLen)
                      && Completes(graph.nodes, Seeds(graph, resolver, maxSeqLen), maxSeqLen)
    ensures r.Err? ==> Aborts(graph.nodes, Seeds(graph, resolver, maxSeqLen), maxSeqLen, r.error)
  {
    var nodeShapes := SeedInputShapes(graph, maxSeqLen);
    nodeShapes := SeedConstShapes(graph.nodes, resolver, nodeShapes);
    r := ForwardPass(graph.nodes, nodeShapes, maxSeqLen);
  }

  method SeedInputShapes(graph: MirGraph, maxSeqLen: nat) returns (nodeShapes: ShapeMap)
    ensures nodeShapes == SeedInputs(graph, maxSeqLen, |graph.inputs|)
  {
    nodeShapes := map[];
    for i := 0 to |graph.inputs|
      invariant nodeShapes == SeedInputs(graph, maxSeqLen, i)
    {
      var id := graph.inputs[i];
      match FindNode(graph.nodes, id) {
        case Some(node) =>
          var shape := InputShapeExplicit(node.id, node.shape, maxSeqLen, None);
          if shape != [] { nodeShapes := nodeShapes[node.id := shape]; }
        case None =>
          if id in graph.inputShapes { nodeShapes := nodeShapes[id := graph.inputShapes[id]]; }
      }
    }
  }

  method SeedConstShapes(nodes: seq<MirNode>, resolver: Resolver, seeds: ShapeMap) returns (nodeShapes: ShapeMap)
    ensures nodeShapes == SeedConsts(nodes, resolver, seeds, |nodes|)
  {
    nodeShapes := seeds;
    for i := 0 to |nodes|
      invariant nodeShapes == SeedConsts(nodes, resolver, seeds, i)
    {
      var node := nodes[i];
      if node.op.Const? && node.shape == [] {
        match resolver(node.op.valuePath) {
          case Some(wd) =>
            if wd.shape != [] { nodeShapes := nodeShapes[node.id := wd.shape]; }
          case None =>
            if "scalar://" <= node.op.valuePath { nodeShapes := nodeShapes[node.id := [1]]; }
        }
      }
    }
  }

  method ForwardPass(nodes: seq<MirNode>, seeds: ShapeMap, maxSeqLen: nat) returns (r: Result<ShapeMap, string>)
    ensures r.Ok? ==> r.value == Forward(nodes, seeds, maxSeqLen, |nodes|) && Completes(nodes, seeds, maxSeqLen)
    ensures r.Err? ==> Aborts(nodes, seeds, maxSeqLen, r.error)
  {
    var nodeShapes := seeds;
    for i := 0 to |nodes|
      invariant nodeShapes == Forward(nodes, seeds, maxSeqLen, i)
      invariant forall j | 0 <= j < i :: !FailsAt(nodes, seeds, maxSeqLen, j)
    {
      var node := nodes[i];
      if node.id !in nodeShapes {
        if node.shape != [] {
          nodeShapes := nodeShapes[node.id := node.shape];
        } else {
          if !Contains(node.id, "input_ids") && Panics(node.op, nodeShapes) {
            assert FailsAt(nodes, seeds, maxSeqLen, i);
            return Err(node.id);
          }
          var shape := OutputShapeExplicit(node.id, node.op, node.shape, nodeShapes, maxSeqLen, None);
          if shape != [] { nodeShapes := nodeShapes[node.id := shape]; }
        }
      }
    }
    return Ok(nodeShapes);
  }

  // ----- no empty shape is ever stored

  lemma {:induction false} SeedInputsHold(graph: MirGraph, maxSeqLen: nat, k: nat, id: string)
    requires k <= |graph.inputs| && id in graph.inputs[..k]
    requires FindNode(graph.nodes, id).None? && id in graph.inputShapes
    ensures Lookup(SeedInputs(graph, maxSeqLen, k), id) == Some(graph.inputShapes[id])
  {
    if graph.inputs[k - 1] != id {
      assert graph.inputs[..k] == graph.inputs[..k - 1] + [graph.inputs[k - 1]];
      SeedInputsHold(graph, maxSeqLen, k - 1, id);
    }
  }

  lemma {:induction false} SeedConstsKeep(nodes: seq<MirNode>, resolver: Resolver, shapes: ShapeMap, k: nat, id: string)
    requires k <= |nodes| && forall n | n in nodes :: n.id != id
    ensures Lookup(SeedConsts(nodes, resolver, shapes, k), id) == Lookup(shapes, id)
  {
    if k > 0 {
      assert nodes[k - 1] in nodes;
      SeedConstsKeep(nodes, resolver, shapes, k - 1, id);
    }
  }

  /** An input without a node that is explicitly given the empty shape. */
  ghost predicate ExplicitlyEmpty(graph: MirGraph, id: string) {
    id in graph.inputs && FindNode(graph.nodes, id).None? && id in graph.inputShapes && graph.inputShapes[id] == []
  }

  lemma {:induction false} SeedInputsEmpty(graph: MirGraph, maxSeqLen: nat, k: nat, id: string)
    requires k <= |graph.inputs|
    ensures NotEmptyAt(SeedInputs(graph, maxSeqLen, k), id) || ExplicitlyEmpty(graph, id)
  {
    if k > 0 { SeedInputsEmpty(graph, maxSeqLen, k - 1, id); }
  }

  lemma {:induction false} SeedConstsEmpty(nodes: seq<MirNode>, resolver: Resolver, shapes: ShapeMap, k: nat, id: string)
    requires k <= |nodes| && NotEmptyAt(shapes, id)
    ensures NotEmptyAt(SeedConsts(nodes, resolver, shapes, k), id)
  {
    if k > 0 { SeedConstsEmpty(nodes, resolver, shapes, k - 1, id); }
  }

  lemma {:induction false} ForwardEmpty(nodes: seq<MirNode>, shapes: ShapeMap, maxSeqLen: nat, k: nat, id: string)
    requires k <= |nodes| && NotEmptyAt(shapes, id)
    ensures NotEmptyAt(Forward(nodes, shapes, maxSeqLen, k), id)
  {
    if k > 0 { ForwardEmpty(nodes, shapes, maxSeqLen, k - 1, id); }
  }

  /** The empty shapes in a map of the pass are exactly those given explicitly. */
  lemma {:induction false} EmptyIsExplicit(graph: MirGraph, resolver: Resolver, maxSeqLen: nat, k: nat, id: string)
    requires k <= |graph.nodes|
    ensures !NotEmptyAt(Forward(graph.nodes, Seeds(graph, resolver, maxSeqLen), maxSeqLen, k), id) <==> ExplicitlyEmpty(graph, id)
  {
    var inputs := SeedInputs(graph, maxSeqLen, |graph.inputs|);
    if ExplicitlyEmpty(graph, id) {
      assert graph.inputs[..|graph.inputs|] == graph.inputs;
      SeedInputsHold(graph, maxSeqLen, |graph.inputs|, id);
      SeedConstsKeep(graph.nodes, resolver, inputs, |graph.nodes|, id);
      LaterStepsKeep(graph.nodes, Seeds(graph, resolver, maxSeqLen), maxSeqLen, 0, k, id);
    } else {
      SeedInputsEmpty(graph, maxSeqLen, |graph.inputs|, id);
      SeedConstsEmpty(graph.nodes, resolver, inputs, |graph.nodes|, id);
      ForwardEmpty(graph.nodes, Seeds(graph, resolver, maxSeqLen), maxSeqLen, k, id);
    }
  }

  /** No map of the pass holds an empty shape exactly if no input without a node is given one. */
  lemma {:induction false} NoneEmptyIff(graph: MirGraph, resolver: Resolver, maxSeqLen: nat, k: nat)
    requires k <= |graph.nodes|
    ensures NoneEmpty(Forward(graph.nodes, Seeds(graph, resolver, maxSeqLen), maxSeqLen, k)) <==> forall id :: !ExplicitlyEmpty(graph, id)
  {
    var shapes := Forward(graph.nodes, Seeds(graph, resolver, maxSeqLen), maxSeqLen, k);
    forall id ensures !NotEmptyAt(shapes, id) <==> ExplicitlyEmpty(graph, id) {
      EmptyIsExplicit(graph, resolver, maxSeqLen, k, id);
    }
    if NoneEmpty(shapes) {
      forall id ensures NotEmptyAt(shapes, id) {}
    } else {
      var id :| id in shapes && shapes[id] == [];
      assert !NotEmptyAt(shapes, id);
    }
  }

  /** On every map the pass works with, the two inference engines agree on every node, except
      exactly for an elementwise one whose rule runs, reads an input explicitly given the empty
      shape, and takes it differently. */
  lemma {:induction false} ReachableMapsAgree(graph: MirGraph, resolver: Resolver, maxSeqLen: nat, k: nat, node: MirNode)
    requires k <= |graph.nodes|
    ensures var shapes := Forward(graph.nodes, Seeds(graph, resolver, maxSeqLen), maxSeqLen, k);
            Agree(node.id, node.op, node.shape, shapes, maxSeqLen) <==>
              (node.shape == [] && !Contains(node.id, "input_ids") && (exists id | id in ShapeRefs(node.op) :: ExplicitlyEmpty(graph, id))
               ==> ElementwiseAgrees(node.op, shapes))
  {
    var shapes := Forward(graph.nodes, Seeds(graph, resolver, maxSeqLen), maxSeqLen, k);
    EnginesAgreeIff(node.id, node.op, node.shape, shapes, maxSeqLen);
    if forall id | id in ShapeRefs(node.op) :: !ExplicitlyEmpty(graph, id) {
      forall id | id in ShapeRefs(node.op) ensures NotEmptyAt(shapes, id) {
        EmptyIsExplicit(graph, resolver, maxSeqLen, k, id);
      }
      EnginesAgree(node.id, node.op, node.shape, shapes, maxSeqLen);
    }
  }

  // ----- one pass is enough

  /** The operands whose shapes a rule looks up. */
  function ShapeRefs(op: MirOp): set<string> {
    match op
    case Const(_, _, _) => {}
    case Linear(_, x, _, _) => {x}
    case LayerNorm(_, x, _, _) => {x}
    case Unary(_, _, x) => {x}
    case Binary(_, _, x, y) => {x, y}
    case Where(_, condition, x, y) => {condition, x, y}
    case Select(_, _, x, _) => {x}
    case MatMul(_, x, y, _) => {x, y}
    case Attention(_, query, _, _, _) => {query}
    case Gather(_, x, indices, _) => {x, indices}
    case Concat(_, values, _) => set v | v in values
    case Stack(_, values, _) => set v | v in values
    case Split(_, x, _, _) => {x}
    case SliceByIndex(_, x, _, _, _, _, _, _) => {x}
    case Reduce(_, _, x, _, _) => {x}
    case Reshape(_, _, _) => {}
    case Transpose(_, x, _) => {x}
    case Tile(_, x, _) => {x}
    case ExpandDims(_, x, _) => {x}
    case Squeeze(_, x, _) => {x}
    case Pad(_, x, _) => {x}
    case Topk(_, x, _, _) => {x}
    case Flatten2d(_, x, _) => {x}
    case Conv(_, x, kernel, _, _, _) => {x, kernel}
    case ConvTranspose(_, x, _, _) => {x}
    case Fill(_, _) => {}
    case ReadState(_, _, _, _) => {}
    case UpdateState(_, _, value) => {value}
    case Identity(_, x) => {x}
    case Other(_, _, _, _) => {}
  }

  /** No rule looks at the shape of its own node or of a later one. */
  ghost predicate Topological(nodes: seq<MirNode>) {
    forall k, j | 0 <= k <= j < |nodes| :: nodes[j].id !in ShapeRefs(nodes[k].op)
  }

  ghost predicate AgreeOn(a: ShapeMap, b: ShapeMap, ids: set<string>) {
    forall id | id in ids :: Lookup(a, id) == Lookup(b, id)
  }

  lemma {:induction false} ManyDepend(name: string, op: MirOp, a: ShapeMap, b: ShapeMap, maxSeqLen: nat)
    requires AgreeOn(a, b, ShapeRefs(op)) && ManyOperands(op)
    ensures RuleShape(name, op, a, maxSeqLen) == RuleShape(name, op, b, maxSeqLen)
  {
    SameOperandShapes(a, b, op.values);
  }

  lemma {:induction false} SeveralDepend(name: string, op: MirOp, a: ShapeMap, b: ShapeMap, maxSeqLen: nat)
    requires AgreeOn(a, b, ShapeRefs(op)) && SeveralOperands(op)
    ensures RuleShape(name, op, a, maxSeqLen) == RuleShape(name, op, b, maxSeqLen)
  {
    assert op.x in ShapeRefs(op) && Lookup(a, op.x) == Lookup(b, op.x);
  }

  lemma {:induction false} OneDepends(name: string, op: MirOp, a: ShapeMap, b: ShapeMap, maxSeqLen: nat)
    requires AgreeOn(a, b, ShapeRefs(op)) && Restructures(op)
    ensures RuleShape(name, op, a, maxSeqLen) == RuleShape(name, op, b, maxSeqLen)
  {
    if Reindexes(op) {
      ReindexedDepends(name, op, a, b, maxSeqLen);
    } else {
      assert op.x in ShapeRefs(op) && Lookup(a, op.x) == Lookup(b, op.x);
    }
  }

  lemma {:induction false} ReindexedDepends(name: string, op: MirOp, a: ShapeMap, b: ShapeMap, maxSeqLen: nat)
    requires AgreeOn(a, b, ShapeRefs(op)) && Reindexes(op)
    ensures RuleShape(name, op, a, maxSeqLen) == RuleShape(name, op, b, maxSeqLen)
  {
    assert op.x in ShapeRefs(op) && Lookup(a, op.x) == Lookup(b, op.x);
  }

  lemma {:induction false} PassesThrough(name: string, op: MirOp, a: ShapeMap, b: ShapeMap, maxSeqLen: nat)
    requires AgreeOn(a, b, ShapeRefs(op)) && !ManyOperands(op) && !SeveralOperands(op) && !Restructures(op)
    requires op.Const? ==> Lookup(a, name) == Lookup(b, name)
    ensures RuleShape(name, op, a, maxSeqLen) == RuleShape(name, op, b, maxSeqLen)
  {
    forall id | id in ShapeRefs(op) ensures Known(a, id) == Known(b, id) {
      assert Lookup(a, id) == Lookup(b, id);
    }
  }

  /** A rule depends on its operands' shapes only, and for a constant on its own. */
  lemma {:induction false} RuleDepends(name: string, op: MirOp, a: ShapeMap, b: ShapeMap, maxSeqLen: nat)
    requires AgreeOn(a, b, ShapeRefs(op))
    requires op.Const? ==> Lookup(a, name) == Lookup(b, name)
    ensures OutputShapeExplicit(name, op, [], a, maxSeqLen, None) == OutputShapeExplicit(name, op, [], b, maxSeqLen, None)
  {
    if ManyOperands(op) {
      ManyDepend(name, op, a, b, maxSeqLen);
    } else if SeveralOperands(op) {
      SeveralDepend(name, op, a, b, maxSeqLen);
    } else if Restructures(op) {
      OneDepends(name, op, a, b, maxSeqLen);
    } else {
      PassesThrough(name, op, a, b, maxSeqLen);
    }
  }

  lemma {:induction false} SameOperandShapes(a: ShapeMap, b: ShapeMap, values: seq<string>)
    requires AgreeOn(a, b, set v | v in values)
    ensures OperandShapes(a, values) == OperandShapes(b, values)
    ensures values != [] ==> Lookup(a, values[0]) == Lookup(b, values[0])
  {
    forall i | 0 <= i < |values| ensures Lookup(a, values[i]) == Lookup(b, values[i]) {
      assert values[i] in set v | v in values;
    }
  }

  /** Later steps touch only the ids of later nodes. */
  lemma {:induction false} LaterStepsKeep(nodes: seq<MirNode>, shapes: ShapeMap, maxSeqLen: nat, k: nat, m: nat, id: string)
    requires k <= m <= |nodes|
    requires forall j | k <= j < m :: nodes[j].id != id
    ensures Lookup(Forward(nodes, shapes, maxSeqLen, m), id) == Lookup(Forward(nodes, shapes, maxSeqLen, k), id)
    decreases m
  {
    if k < m { LaterStepsKeep(nodes, shapes, maxSeqLen, k, m - 1, id); }
  }

  /** Every shape the node looks up is known by its turn, or never. */
  ghost predicate ReadsSettled(nodes: seq<MirNode>, seeds: ShapeMap, maxSeqLen: nat, k: nat)
    requires k < |nodes|
  {
    forall id | id in ShapeRefs(nodes[k].op) ::
      id in Forward(nodes, seeds, maxSeqLen, |nodes|) ==> id in Forward(nodes, seeds, maxSeqLen, k)
  }

  lemma {:induction false} TopologicalReadsSettled(nodes: seq<MirNode>, seeds: ShapeMap, maxSeqLen: nat, k: nat)
    requires k < |nodes| && Topological(nodes)
    ensures ReadsSettled(nodes, seeds, maxSeqLen, k)
  {
    forall id | id in ShapeRefs(nodes[k].op)
      ensures Lookup(Forward(nodes, seeds, maxSeqLen, |nodes|), id) == Lookup(Forward(nodes, seeds, maxSeqLen, k), id)
    {
      LaterStepsKeep(nodes, seeds, maxSeqLen, k, |nodes|, id);
    }
  }

  /** Each node the rules settle from shapes that are then known has, in the final map, the shape
      its rule gives when it is run again on that map. */
  lemma {:induction false} SettledIsFixed(nodes: seq<MirNode>, seeds: ShapeMap, maxSeqLen: nat, k: nat)
    requires k < |nodes| && UniqueIds(nodes) && ReadsSettled(nodes, seeds, maxSeqLen, k)
    requires nodes[k].shape == [] && nodes[k].id !in Forward(nodes, seeds, maxSeqLen, k)
    ensures var final := Forward(nodes, seeds, maxSeqLen, |nodes|);
            Known(final, nodes[k].id) == OutputShapeExplicit(nodes[k].id, nodes[k].op, [], final, maxSeqLen, None)
    ensures nodes[k].id in Forward(nodes, seeds, maxSeqLen, |nodes|) ==>
            Forward(nodes, seeds, maxSeqLen, |nodes|)[nodes[k].id] != []
  {
    var node, before := nodes[k], Forward(nodes, seeds, maxSeqLen, k);
    var after, final := Forward(nodes, seeds, maxSeqLen, k + 1), Forward(nodes, seeds, maxSeqLen, |nodes|);
    ForwardGrows(nodes, seeds, maxSeqLen, k, |nodes|);
    assert AgreeOn(before, final, ShapeRefs(node.op));
    LaterStepsKeep(nodes, seeds, maxSeqLen, k + 1, |nodes|, node.id);
    var shape := OutputShapeExplicit(node.id, node.op, [], before, maxSeqLen, None);
    if node.op.Const? {
      if shape == [] { RuleDepends(node.id, node.op, before, final, maxSeqLen); }
    } else {
      RuleDepends(node.id, node.op, before, final, maxSeqLen);
    }
  }

  lemma {:induction false} PanicsDepends(op: MirOp, a: ShapeMap, b: ShapeMap)
    requires AgreeOn(a, b, ShapeRefs(op))
    ensures Panics(op, a) <==> Panics(op, b)
  {
    if op.Split? || op.SliceByIndex? || op.Flatten2d? { assert op.x in ShapeRefs(op) && Lookup(a, op.x) == Lookup(b, op.x); }
  }

  /** In topological order no rule fails after a pass that completes, so describing the outputs
      never does. */
  lemma {:induction false} NoLateFailure(nodes: seq<MirNode>, seeds: ShapeMap, maxSeqLen: nat, k: nat)
    requires k < |nodes| && Topological(nodes) && Completes(nodes, seeds, maxSeqLen)
    ensures !Fails(nodes[k], Forward(nodes, seeds, maxSeqLen, |nodes|))
  {
    var before, final := Forward(nodes, seeds, maxSeqLen, k), Forward(nodes, seeds, maxSeqLen, |nodes|);
    TopologicalReadsSettled(nodes, seeds, maxSeqLen, k);
    ForwardGrows(nodes, seeds, maxSeqLen, k, |nodes|);
    PanicsDepends(nodes[k].op, before, final);
    assert !FailsAt(nodes, seeds, maxSeqLen, k);
  }

  lemma {:induction false} ForwardGrows(nodes: seq<MirNode>, seeds: ShapeMap, maxSeqLen: nat, k: nat, m: nat)
    requires k <= m <= |nodes|
    ensures Forward(nodes, seeds, maxSeqLen, k).Keys <= Forward(nodes, seeds, maxSeqLen, m).Keys
    ensures forall id | id in Forward(nodes, seeds, maxSeqLen, k) ::
      Forward(nodes, seeds, maxSeqLen, m)[id] == Forward(nodes, seeds, maxSeqLen, k)[id]
    decreases m
  {
    if k < m { ForwardGrows(nodes, seeds, maxSeqLen, k, m - 1); }
  }

  /** A node that has no shape yet, though its rule would now give one. */
  ghost predicate Unsettled(nodes: seq<MirNode>, shapes: ShapeMap, maxSeqLen: nat, k: nat)
    requires k < |nodes|
  {
    && nodes[k].id !in shapes
    && (nodes[k].shape != [] || OutputShapeExplicit(nodes[k].id, nodes[k].op, [], shapes, maxSeqLen, None) != [])
  }

  lemma {:induction false} SettledPassIsIdle(nodes: seq<MirNode>, shapes: ShapeMap, maxSeqLen: nat, k: nat)
    requires k <= |nodes| && forall j | 0 <= j < k :: !Unsettled(nodes, shapes, maxSeqLen, j)
    ensures Forward(nodes, shapes, maxSeqLen, k) == shapes
  {
    if k > 0 {
      SettledPassIsIdle(nodes, shapes, maxSeqLen, k - 1);
      assert !Unsettled(nodes, shapes, maxSeqLen, k - 1);
    }
  }

  lemma {:induction false} NothingUnsettled(nodes: seq<MirNode>, seeds: ShapeMap, maxSeqLen: nat, k: nat)
    requires k < |nodes| && UniqueIds(nodes) && Topological(nodes)
    ensures !Unsettled(nodes, Forward(nodes, seeds, maxSeqLen, |nodes|), maxSeqLen, k)
  {
    if nodes[k].id !in Forward(nodes, seeds, maxSeqLen, |nodes|) {
      ForwardGrows(nodes, seeds, maxSeqLen, k, |nodes|);
      ForwardGrows(nodes, seeds, maxSeqLen, k + 1, |nodes|);
      TopologicalReadsSettled(nodes, seeds, maxSeqLen, k);
      assert nodes[k].id !in Forward(nodes, seeds, maxSeqLen, k + 1);
      SettledIsFixed(nodes, seeds, maxSeqLen, k);
    }
  }

  /** Running the pass a second time, from the map it produced, changes nothing. */
  lemma {:induction false} SecondPassChangesNothing(nodes: seq<MirNode>, seeds: ShapeMap, maxSeqLen: nat, k: nat)
    requires UniqueIds(nodes) && Topological(nodes) && k <= |nodes|
    ensures var final := Forward(nodes, seeds, maxSeqLen, |nodes|);
            Forward(nodes, final, maxSeqLen, k) == final
  {
    var final := Forward(nodes, seeds, maxSeqLen, |nodes|);
    forall j | 0 <= j < k ensures !Unsettled(nodes, final, maxSeqLen, j) { NothingUnsettled(nodes, seeds, maxSeqLen, j); }
    SettledPassIsIdle(nodes, final, maxSeqLen, k);
  }

  /** In whatever order the nodes come, a pass changes nothing exactly if no node is unsettled on
      the map it starts from. */
  lemma {:induction false} PassIsIdleIff(nodes: seq<MirNode>, shapes: ShapeMap, maxSeqLen: nat)
    ensures Forward(nodes, shapes, maxSeqLen, |nodes|) == shapes
            <==> forall k | 0 <= k < |nodes| :: !Unsettled(nodes, shapes, maxSeqLen, k)
  {
    if forall k | 0 <= k < |nodes| :: !Unsettled(nodes, shapes, maxSeqLen, k) {
      SettledPassIsIdle(nodes, shapes, maxSeqLen, |nodes|);
    } else {
      var k :| 0 <= k < |nodes| && Unsettled(nodes, shapes, maxSeqLen, k);
      ForwardGrows(nodes, shapes, maxSeqLen, 0, k);
      ForwardGrows(nodes, shapes, maxSeqLen, k + 1, |nodes|);
      if Forward(nodes, shapes, maxSeqLen, k) == shapes {
        assert nodes[k].id in Forward(nodes, shapes, maxSeqLen, k + 1);
      } else {
        ForwardGrows(nodes, shapes, maxSeqLen, k, |nodes|);
      }
    }
  }

  /** Out of order, one pass is not enough: the first node learns its shape only in a second. */
  lemma {:induction false} OutOfOrderCounterexample()
    ensures var nodes := [MirNode("a", Unary(Silu, "a", "b"), [], Weights.Fp16),
                          MirNode("b", Reshape("b", "c", [2]), [], Weights.Fp16)];
            && UniqueIds(nodes) && !Topological(nodes)
            && "a" !in Forward(nodes, map[], 8, 2)
            && "a" in Forward(nodes, Forward(nodes, map[], 8, 2), 8, 2)
  {
    var a := MirNode("a", Unary(Silu, "a", "b"), [], Weights.Fp16);
    var b := MirNode("b", Reshape("b", "c", [2]), [], Weights.Fp16);
    var nodes := [a, b];
    assert nodes[1].id in ShapeRefs(nodes[0].op);
    assert !Contains("a", "input_ids") && !Contains("b", "input_ids");
    assert Forward(nodes, map[], 8, 0) == map[];
    assert Forward(nodes, map[], 8, 1) == map[];
    var once := Forward(nodes, map[], 8, 2);
    assert once == map["b" := [2]];
    assert Forward(nodes, once, 8, 0) == once;
    assert Forward(nodes, once, 8, 1) == once["a" := [2]];
  }
}
