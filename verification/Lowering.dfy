/** The lowering of a graph: convert and redirect the nodes, materialise the weights they
    name, describe the interface, settle the shapes (`mir_graph_to_compat_with_arch`). */
module Lowering {
  import opened Wrappers
  import opened Strings
  import opened ShapeOps
  import opened Weights
  import opened Mir
  import opened ShapeInference
  import opened ForwardShapes
  import opened AliasMap
  import opened Compat

  const STATIC: string := "static_tables/"

  // ----- phase 1: the nodes

  /** The shapes that nodes declare, for the completion of reshape targets. */
  function DeclaredShapes(nodes: seq<MirNode>): map<string, Shape> {
    if nodes == [] then map[]
    else
      var node := nodes[|nodes| - 1];
      var rest := DeclaredShapes(nodes[..|nodes| - 1]);
      if node.shape == [] then rest else rest[node.id := node.shape]
  }

  function Redirect(aliases: map<string, string>): Renaming {
    name => if name in aliases then aliases[name] else name
  }

  type Ops = Result<seq<CompatOp>, BridgeError>

  type Converter = MirNode -> Result<CompatOp, BridgeError>

  /** Convert a node and redirect the names it refers to. */
  function Convert(resolver: Resolver, shapes: map<string, Shape>, f: Renaming): Converter {
    node => match ConvertNode(node, resolver, shapes) case Err(e) => Err(e) case Ok(c) => Ok(RemapInputs(c, f))
  }

  /** The first `k` nodes converted, or the error of the first that cannot be. */
  function Collected(nodes: seq<MirNode>, convert: Converter, k: nat): Ops
    requires k <= |nodes|
  {
    if k == 0 then Ok([])
    else match Collected(nodes, convert, k - 1)
         case Err(e) => Err(e)
         case Ok(ops) =>
           match convert(nodes[k - 1])
           case Err(e) => Err(e)
           case Ok(c) => Ok(ops + [c])
  }

  function Converted(nodes: seq<MirNode>, resolver: Resolver, shapes: map<string, Shape>, f: Renaming, k: nat): Ops
    requires k <= |nodes|
  {
    Collected(nodes, Convert(resolver, shapes, f), k)
  }

  method ConvertNodes(nodes: seq<MirNode>, convert: Converter) returns (r: Ops)
    ensures r == Collected(nodes, convert, |nodes|)
  {
    var ops: seq<CompatOp> := [];
    for k := 0 to |nodes|
      invariant Collected(nodes, convert, k) == Ok(ops)
    {
      match convert(nodes[k]) {
        case Err(e) =>
          CollectionFails(nodes, convert, k + 1, |nodes|);
          return Err(e);
        case Ok(c) => ops := ops + [c];
      }
    }
    return Ok(ops);
  }

  lemma {:induction false} CollectionFails(nodes: seq<MirNode>, convert: Converter, k: nat, m: nat)
    requires k <= m <= |nodes| && Collected(nodes, convert, k).Err?
    ensures Collected(nodes, convert, m) == Collected(nodes, convert, k)
    decreases m
  {
    if k < m { CollectionFails(nodes, convert, k, m - 1); }
  }

  lemma {:induction false} CollectedOps(nodes: seq<MirNode>, convert: Converter, k: nat)
    requires k <= |nodes| && Collected(nodes, convert, k).Ok?
    ensures |Collected(nodes, convert, k).value| == k
    ensures forall i | 0 <= i < k :: convert(nodes[i]) == Ok(Collected(nodes, convert, k).value[i])
  {
    if k > 0 { CollectedOps(nodes, convert, k - 1); }
  }

  lemma {:induction false} ConvertedOps(nodes: seq<MirNode>, resolver: Resolver, shapes: map<string, Shape>, f: Renaming, k: nat)
    requires k <= |nodes| && Converted(nodes, resolver, shapes, f, k).Ok?
    ensures var ops := Converted(nodes, resolver, shapes, f, k).value;
      && |ops| == k
      && forall i | 0 <= i < k ::
           && ConvertNode(nodes[i], resolver, shapes).Ok?
           && ops[i] == RemapInputs(ConvertNode(nodes[i], resolver, shapes).value, f)
           && OutputName(ops[i]) == nodes[i].id
           && (ops[i].Constant? <==> nodes[i].op.Const?)
  {
    var ops := Converted(nodes, resolver, shapes, f, k).value;
    CollectedOps(nodes, Convert(resolver, shapes, f), k);
    forall i | 0 <= i < k
      ensures ConvertNode(nodes[i], resolver, shapes).Ok?
      ensures ops[i] == RemapInputs(ConvertNode(nodes[i], resolver, shapes).value, f)
      ensures OutputName(ops[i]) == nodes[i].id && (ops[i].Constant? <==> nodes[i].op.Const?)
    {
      OneConverted(nodes[i], resolver, shapes, f, ops[i]);
    }
  }

  lemma {:induction false} OneConverted(node: MirNode, resolver: Resolver, shapes: map<string, Shape>, f: Renaming, c: CompatOp)
    requires Convert(resolver, shapes, f)(node) == Ok(c)
    ensures ConvertNode(node, resolver, shapes).Ok? && c == RemapInputs(ConvertNode(node, resolver, shapes).value, f)
    ensures OutputName(c) == node.id && (c.Constant? <==> node.op.Const?)
  {
    ConvertedName(node, resolver, shapes);
    RemapMapsOperands(ConvertNode(node, resolver, shapes).value, f);
    RemapKeepsConstants(ConvertNode(node, resolver, shapes).value, f);
  }

  lemma {:induction false} RemapKeepsConstants(c: CompatOp, f: Renaming)
    ensures RemapInputs(c, f).Constant? <==> c.Constant?
  {
  }

  // ----- phase 2: the weights to materialise

  function ConstNames(ops: seq<CompatOp>): set<string> {
    set c | c in ops && c.Constant? :: c.name
  }

  function NodeIds(nodes: seq<MirNode>): set<string> {
    set n | n in nodes :: n.id
  }

  /** The weight and bias names of linear and layer-norm operations. */
  function WeightRefs(c: CompatOp): seq<string> {
    match c
    case Direct(Linear(_, _, weight, bias)) => [weight] + OptionalName(bias)
    case Direct(LayerNorm(_, _, weight, bias)) => [weight] + OptionalName(bias)
    case _ => []
  }

  ghost predicate WantedBy(w: string, c: CompatOp, existing: set<string>, ids: set<string>, resolver: Resolver) {
    || (w in WeightRefs(c) && w !in existing)
    || (w in InputNames(c) && w !in ids && w !in existing && resolver(w).Some?)
  }

  ghost predicate Wanted(w: string, ops: seq<CompatOp>, existing: set<string>, ids: set<string>, resolver: Resolver) {
    exists c :: c in ops && WantedBy(w, c, existing, ids, resolver)
  }

  method CollectWeights(ops: seq<CompatOp>, ids: set<string>, resolver: Resolver) returns (refs: seq<string>)
    ensures forall w :: w in refs <==> Wanted(w, ops, ConstNames(ops), ids, resolver)
  {
    var existing := ConstNames(ops);
    refs := [];
    for k := 0 to |ops|
      invariant forall w :: w in refs <==> Wanted(w, ops[..k], existing, ids, resolver)
    {
      ghost var before := refs;
      var weights := KeepNames(WeightRefs(ops[k]), existing);
      var inputs := KeepResolved(InputNames(ops[k]), ids, existing, resolver);
      refs := refs + weights + inputs;
      WantedOneMore(ops, k, existing, ids, resolver);
      forall w ensures w in refs <==> w in before || WantedBy(w, ops[k], existing, ids, resolver) {}
    }
    assert ops[..|ops|] == ops;
  }

  method KeepNames(names: seq<string>, existing: set<string>) returns (kept: seq<string>)
    ensures forall w :: w in kept <==> w in names && w !in existing
  {
    kept := [];
    for i := 0 to |names|
      invariant forall w :: w in kept <==> w in names[..i] && w !in existing
    {
      assert names[..i + 1] == names[..i] + [names[i]];
      if names[i] !in existing { kept := kept + [names[i]]; }
    }
    assert names[..|names|] == names;
  }

  method KeepResolved(names: seq<string>, ids: set<string>, existing: set<string>, resolver: Resolver) returns (kept: seq<string>)
    ensures forall w :: w in kept <==> w in names && w !in ids && w !in existing && resolver(w).Some?
  {
    kept := [];
    for i := 0 to |names|
      invariant forall w :: w in kept <==> w in names[..i] && w !in ids && w !in existing && resolver(w).Some?
    {
      assert names[..i + 1] == names[..i] + [names[i]];
      if names[i] in ids || names[i] in existing { continue; }
      if resolver(names[i]).Some? { kept := kept + [names[i]]; }
    }
    assert names[..|names|] == names;
  }

  lemma {:induction false} WantedOneMore(ops: seq<CompatOp>, k: nat, existing: set<string>, ids: set<string>, resolver: Resolver)
    requires k < |ops|
    ensures forall w :: Wanted(w, ops[..k + 1], existing, ids, resolver)
                   <==> Wanted(w, ops[..k], existing, ids, resolver) || WantedBy(w, ops[k], existing, ids, resolver)
  {
    assert ops[..k + 1] == ops[..k] + [ops[k]];
    assert forall c :: c in ops[..k + 1] <==> c in ops[..k] || c == ops[k];
  }

  // ----- phase 3: the constants

  datatype Outcome = Emit(c: CompatOp) | Skip | Fail

  /** Resolved, an optional table left out, a zero placeholder on request, or an error. */
  function MaterializeOne(w: string, resolver: Resolver, allowMissing: bool): Outcome {
    match resolver(w)
    case Some(wd) => Emit(Constant(w, wd.data, wd.dtype, wd.shape))
    case None =>
      if STATIC <= w then Skip
      else if allowMissing then Emit(Constant(w, [0, 0], Fp16, [1]))
      else Fail
  }

  function Materialized(names: seq<string>, resolver: Resolver, allowMissing: bool): Ops {
    if names == [] then Ok([])
    else match Materialized(names[..|names| - 1], resolver, allowMissing)
         case Err(e) => Err(e)
         case Ok(consts) =>
           match MaterializeOne(names[|names| - 1], resolver, allowMissing)
           case Emit(c) => Ok(consts + [c])
           case Skip => Ok(consts)
           case Fail => Err(UnresolvedWeight(names[|names| - 1]))
  }

  method Materialize(names: seq<string>, resolver: Resolver, allowMissing: bool) returns (r: Ops)
    ensures r == Materialized(names, resolver, allowMissing)
  {
    var consts: seq<CompatOp> := [];
    for k := 0 to |names|
      invariant Materialized(names[..k], resolver, allowMissing) == Ok(consts)
    {
      assert names[..k + 1][..k] == names[..k];
      match MaterializeOne(names[k], resolver, allowMissing) {
        case Emit(c) => consts := consts + [c];
        case Skip =>
        case Fail =>
          MaterializationFails(names, resolver, allowMissing, k + 1);
          return Err(UnresolvedWeight(names[k]));
      }
    }
    assert names[..|names|] == names;
    return Ok(consts);
  }

  lemma {:induction false} MaterializationFails(names: seq<string>, resolver: Resolver, allowMissing: bool, k: nat)
    requires k <= |names| && Materialized(names[..k], resolver, allowMissing).Err?
    ensures Materialized(names, resolver, allowMissing) == Materialized(names[..k], resolver, allowMissing)
    decreases |names|
  {
    if k < |names| {
      assert names[..|names| - 1][..k] == names[..k];
      MaterializationFails(names[..|names| - 1], resolver, allowMissing, k);
    } else {
      assert names[..k] == names;
    }
  }

  // ----- the interface

  datatype TensorDesc = TensorDesc(name: string, shape: Shape, dtype: Dtype)

  function InputDesc(graph: MirGraph, id: string, maxSeqLen: nat): Result<TensorDesc, BridgeError> {
    match FindNode(graph.nodes, id)
    case Some(node) => Ok(TensorDesc(node.id, InputShapeExplicit(node.id, node.shape, maxSeqLen, None), node.dtype))
    case None =>
      if id in graph.inputShapes then
        var integral := Contains(id, "position") || Contains(id, "pos") || Contains(id, "input_ids") || Contains(id, "_ids")
                        || Contains(id, "attention_mask") || Contains(id, "mask");
        Ok(TensorDesc(id, graph.inputShapes[id], if integral then Int32 else Fp16))
      else Err(MissingInput(id))
  }

  function OutputDesc(graph: MirGraph, shapes: ShapeMap, id: string, maxSeqLen: nat): Result<TensorDesc, BridgeError> {
    match FindNode(graph.nodes, id)
    case Some(node) =>
      if node.id in shapes then Ok(TensorDesc(node.id, shapes[node.id], node.dtype))
      else if Fails(node, shapes) then Err(Panicked(node.id))
      else Ok(TensorDesc(node.id, OutputShapeExplicit(node.id, node.op, node.shape, shapes, maxSeqLen, None), node.dtype))
    case None => Err(MissingOutput(id))
  }

  type Descs = Result<seq<TensorDesc>, BridgeError>

  function Described(ids: seq<string>, describe: string -> Result<TensorDesc, BridgeError>): Descs {
    if ids == [] then Ok([])
    else match describe(ids[0])
         case Err(e) => Err(e)
         case Ok(d) =>
           match Described(ids[1..], describe)
           case Err(e) => Err(e)
           case Ok(ds) => Ok([d] + ds)
  }

  datatype CompatGraph = CompatGraph(ops: seq<CompatOp>, inputs: seq<string>, outputs: seq<string>,
                                     inputDescs: seq<TensorDesc>, outputDescs: seq<TensorDesc>, nodeShapes: ShapeMap)

  // ----- the whole pass

  ghost predicate SortedWanted(names: seq<string>, ops: seq<CompatOp>, ids: set<string>, resolver: Resolver) {
    Ascending(names) && forall w :: w in names <==> Wanted(w, ops, ConstNames(ops), ids, resolver)
  }

  /** What the three phases emit: `names` are the wanted weights in ascending order, `ops` the
      converted nodes, `consts` the materialised weights. */
  ghost predicate Emitted(nodes: seq<MirNode>, resolver: Resolver, f: Renaming, allowMissing: bool,
                          names: seq<string>, consts: seq<CompatOp>, ops: seq<CompatOp>) {
    && Converted(nodes, resolver, DeclaredShapes(nodes), f, |nodes|) == Ok(ops)
    && SortedWanted(names, ops, NodeIds(nodes), resolver)
    && Materialized(names, resolver, allowMissing) == Ok(consts)
  }

  /** Names redirected to the nodes they are aliases of. */
  function AliasRedirect(graph: MirGraph, arch: Architecture): Renaming { Redirect(Aliases(graph.nodes, Rule(arch))) }

  /** Either the first node that cannot be converted is reported, or the first wanted weight, in
      ascending order, that cannot be materialised. */
  ghost predicate Rejected(graph: MirGraph, resolver: Resolver, arch: Architecture, allowMissing: bool, e: BridgeError) {
    var converted := Converted(graph.nodes, resolver, DeclaredShapes(graph.nodes), AliasRedirect(graph, arch), |graph.nodes|);
    || converted == Err(e)
    || (&& converted.Ok?
        && exists names ::
             && SortedWanted(names, converted.value, NodeIds(graph.nodes), resolver)
             && Materialized(names, resolver, allowMissing) == Err(e))
  }

  ghost predicate Accepted(graph: MirGraph, resolver: Resolver, arch: Architecture, allowMissing: bool) {
    exists names, consts, ops :: Emitted(graph.nodes, resolver, AliasRedirect(graph, arch), allowMissing, names, consts, ops)
  }

  /** Either the forward pass is aborted at its first failing rule, or it completes and an output
      cannot be described. */
  ghost predicate ShapesRejected(graph: MirGraph, resolver: Resolver, maxSeqLen: nat, e: BridgeError) {
    var seeds := Seeds(graph, resolver, maxSeqLen);
    || (e.Panicked? && Aborts(graph.nodes, seeds, maxSeqLen, e.id))
    || (&& Completes(graph.nodes, seeds, maxSeqLen)
        && Described(graph.outputs, id => OutputDesc(graph, NodeShapes(graph, resolver, maxSeqLen), id, maxSeqLen)) == Err(e))
  }

  method LowerOps(graph: MirGraph, resolver: Resolver, arch: Architecture, allowMissing: bool)
      returns (r: Ops, ghost names: seq<string>, ghost consts: seq<CompatOp>, ghost ops: seq<CompatOp>)
    ensures r.Ok? ==> Emitted(graph.nodes, resolver, AliasRedirect(graph, arch), allowMissing, names, consts, ops) && r.value == consts + ops
    ensures r.Err? ==> Rejected(graph, resolver, arch, allowMissing, r.error)
  {
    names, consts, ops := [], [], [];
    var aliases := BuildInputAliasMap(graph.nodes, arch);
    var converted := ConvertNodes(graph.nodes, Convert(resolver, DeclaredShapes(graph.nodes), Redirect(aliases)));
    if converted.Err? { return converted, names, consts, ops; }
    ops := converted.value;
    var refs := CollectWeights(converted.value, NodeIds(graph.nodes), resolver);
    var sorted := SortDedup(refs);
    SortDedupAscending(refs);
    names := sorted;
    var materialized := Materialize(sorted, resolver, allowMissing);
    if materialized.Err? { return materialized, names, consts, ops; }
    consts := materialized.value;
    return Ok(materialized.value + converted.value), names, consts, ops;
  }

  method MirGraphToCompat(graph: MirGraph, resolver: Resolver, arch: Architecture, maxSeqLen: nat, allowMissing: bool)
      returns (r: Result<CompatGraph, BridgeError>)
    ensures r.Ok? ==>
      && (exists names, consts, ops ::
            && Emitted(graph.nodes, resolver, AliasRedirect(graph, arch), allowMissing, names, consts, ops)
            && r.value.ops == consts + ops)
      && r.value.inputs == graph.inputs && r.value.outputs == graph.outputs
      && Completes(graph.nodes, Seeds(graph, resolver, maxSeqLen), maxSeqLen)
      && r.value.nodeShapes == NodeShapes(graph, resolver, maxSeqLen)
      && Ok(r.value.inputDescs) == Described(graph.inputs, id => InputDesc(graph, id, maxSeqLen))
      && Ok(r.value.outputDescs) == Described(graph.outputs, id => OutputDesc(graph, r.value.nodeShapes, id, maxSeqLen))
    ensures r.Err? ==>
      || Rejected(graph, resolver, arch, allowMissing, r.error)
      || (&& Accepted(graph, resolver, arch, allowMissing)
          && var inputs := Described(graph.inputs, id => InputDesc(graph, id, maxSeqLen));
             inputs == Err(r.error) || (inputs.Ok? && ShapesRejected(graph, resolver, maxSeqLen, r.error)))
  {
    var all, names, consts, ops := LowerOps(graph, resolver, arch, allowMissing);
    if all.Err? { return Err(all.error); }
    var inputDescs := Described(graph.inputs, id => InputDesc(graph, id, maxSeqLen));
    if inputDescs.Err? { return Err(inputDescs.error); }
    var inferred := InferNodeShapes(graph, resolver, maxSeqLen);
    if inferred.Err? { return Err(Panicked(inferred.error)); }
    var nodeShapes := inferred.value;
    var outputDescs := Described(graph.outputs, id => OutputDesc(graph, nodeShapes, id, maxSeqLen));
    if outputDescs.Err? { return Err(outputDescs.error); }
    r := Ok(CompatGraph(all.value, graph.inputs, graph.outputs, inputDescs.value, outputDescs.value, nodeShapes));
  }

  /** In topological order only the forward pass can be aborted, not the description of outputs. */
  lemma {:induction false} OutputsNeverPanic(graph: MirGraph, resolver: Resolver, maxSeqLen: nat, id: string)
    requires Topological(graph.nodes) && Completes(graph.nodes, Seeds(graph, resolver, maxSeqLen), maxSeqLen)
    ensures var desc := OutputDesc(graph, NodeShapes(graph, resolver, maxSeqLen), id, maxSeqLen);
            desc.Err? ==> desc.error == MissingOutput(id)
  {
    var found := FindNode(graph.nodes, id);
    if found.Some? {
      var k :| 0 <= k < |graph.nodes| && graph.nodes[k] == found.value;
      NoLateFailure(graph.nodes, Seeds(graph, resolver, maxSeqLen), maxSeqLen, k);
    }
  }

  // ----- which constants are emitted

  ghost predicate LeftOut(w: string, resolver: Resolver) { resolver(w).None? && STATIC <= w }

  lemma {:induction false} EmittedConstants(names: seq<string>, resolver: Resolver, allowMissing: bool)
    requires Ascending(names) && Materialized(names, resolver, allowMissing).Ok?
    ensures var consts := Materialized(names, resolver, allowMissing).value;
      && (forall c | c in consts :: c.Constant? && c.name in names && !LeftOut(c.name, resolver)
                                    && MaterializeOne(c.name, resolver, allowMissing) == Emit(c))
      && (forall w | w in names && !LeftOut(w, resolver) :: exists c :: c in consts && c.name == w)
      && (forall i, j | 0 <= i < j < |consts| :: LexLess(OutputName(consts[i]), OutputName(consts[j])))
  {
    if names != [] {
      var init, last := names[..|names| - 1], names[|names| - 1];
      assert names == init + [last];
      EmittedConstants(init, resolver, allowMissing);
      var before, consts := Materialized(init, resolver, allowMissing).value, Materialized(names, resolver, allowMissing).value;
      forall w | w in names && !LeftOut(w, resolver) ensures exists c :: c in consts && c.name == w {
        if w in init {
          var c :| c in before && c.name == w;
          assert c in consts;
        } else {
          assert MaterializeOne(w, resolver, allowMissing).Emit?;
          assert consts[|before|].name == w;
        }
      }
      forall i, j | 0 <= i < j < |consts| ensures LexLess(OutputName(consts[i]), OutputName(consts[j])) {
        assert before[i] in before;
        if j == |before| {
          assert before[i].name in init;
          var p :| 0 <= p < |init| && init[p] == before[i].name;
          assert LexLess(names[p], names[|names| - 1]);
        }
      }
    }
  }

  /** What is emitted is determined by the nodes, the resolver and the redirection: in whatever
      order the weights were collected, sorting and removing duplicates gives one list. */
  lemma {:induction false} EmissionDetermined(nodes: seq<MirNode>, resolver: Resolver, f: Renaming, allowMissing: bool,
      names: seq<string>, consts: seq<CompatOp>, ops: seq<CompatOp>, otherNames: seq<string>, otherConsts: seq<CompatOp>, otherOps: seq<CompatOp>)
    requires Emitted(nodes, resolver, f, allowMissing, names, consts, ops)
    requires Emitted(nodes, resolver, f, allowMissing, otherNames, otherConsts, otherOps)
    ensures names == otherNames && consts == otherConsts && ops == otherOps
  {
    AscendingUnique(names, otherNames);
  }

  /** No graph is both rejected and accepted, and none is rejected in two ways. */
  lemma {:induction false} RejectedNotAccepted(graph: MirGraph, resolver: Resolver, arch: Architecture, allowMissing: bool, e: BridgeError)
    requires Rejected(graph, resolver, arch, allowMissing, e)
    ensures !Accepted(graph, resolver, arch, allowMissing)
    ensures forall d | Rejected(graph, resolver, arch, allowMissing, d) :: d == e
  {
    var ids := NodeIds(graph.nodes);
    forall ops, names, others | SortedWanted(names, ops, ids, resolver) && SortedWanted(others, ops, ids, resolver)
      ensures names == others
    {
      AscendingUnique(names, others);
    }
  }

  // ----- constants nobody resolves

  /** Without placeholders too, a constant nobody resolves is emitted as zeros. */
  lemma {:induction false} MissingConstIsEmitted(nodes: seq<MirNode>, resolver: Resolver, f: Renaming, names: seq<string>,
                                                 consts: seq<CompatOp>, ops: seq<CompatOp>, k: nat)
    requires Emitted(nodes, resolver, f, false, names, consts, ops)
    requires k < |nodes| && nodes[k].op.Const? && resolver(nodes[k].op.valuePath).None?
    ensures k < |ops| && ops[k] == Constant(nodes[k].id, ZeroBytes(Product(nodes[k].shape) * ElementSize(nodes[k].op.dtype)),
                                            nodes[k].op.dtype, nodes[k].shape)
  {
    ConvertedOps(nodes, resolver, DeclaredShapes(nodes), f, |nodes|);
    MissingConstIsZeroFilled(nodes[k], resolver, DeclaredShapes(nodes));
  }

  /** Constants alone are never rejected, whether or not anybody resolves them. */
  lemma {:induction false} ConstantsAreAccepted(graph: MirGraph, resolver: Resolver, arch: Architecture)
    requires forall n | n in graph.nodes :: n.op.Const?
    ensures Accepted(graph, resolver, arch, false)
  {
    var nodes, f := graph.nodes, AliasRedirect(graph, arch);
    ConstantsConvert(nodes, resolver, DeclaredShapes(nodes), f, |nodes|);
    var ops := Converted(nodes, resolver, DeclaredShapes(nodes), f, |nodes|).value;
    ConvertedOps(nodes, resolver, DeclaredShapes(nodes), f, |nodes|);
    forall c | c in ops ensures c.Constant? {
      var i :| 0 <= i < |ops| && ops[i] == c;
      assert nodes[i] in nodes;
    }
    assert forall w :: !Wanted(w, ops, ConstNames(ops), NodeIds(nodes), resolver);
    assert Emitted(nodes, resolver, f, false, [], [], ops);
  }

  lemma {:induction false} ConstantsConvert(nodes: seq<MirNode>, resolver: Resolver, shapes: map<string, Shape>, f: Renaming, k: nat)
    requires k <= |nodes| && forall n | n in nodes :: n.op.Const?
    ensures Converted(nodes, resolver, shapes, f, k).Ok?
  {
    if k > 0 {
      assert nodes[k - 1] in nodes;
      ConstantsConvert(nodes, resolver, shapes, f, k - 1);
    }
  }

  // ----- unique names

  ghost predicate DistinctNames(ops: seq<CompatOp>) {
    forall i, j :: 0 <= i < j < |ops| ==> OutputName(ops[i]) != OutputName(ops[j])
  }

  /** The weight and bias names of a node once aliases are redirected. */
  function NodeWeights(op: MirOp, f: Renaming): seq<string> {
    match op
    case Linear(_, _, weight, bias) => [f(weight)] + OptionalName(MapOption(bias, f))
    case LayerNorm(_, _, weight, bias) => [f(weight)] + OptionalName(MapOption(bias, f))
    case _ => []
  }

  function ConstIds(nodes: seq<MirNode>): set<string> {
    set n | n in nodes && n.op.Const? :: n.id
  }

  /** A weight or bias that bears the id of a node, but of no constant. */
  ghost predicate Clashes(nodes: seq<MirNode>, f: Renaming, resolver: Resolver) {
    exists n, w :: n in nodes && w in NodeWeights(n.op, f) && w in NodeIds(nodes) && w !in ConstIds(nodes) && !LeftOut(w, resolver)
  }

  lemma {:induction false} RemapMapsWeights(c: CompatOp, f: Renaming)
    ensures WeightRefs(RemapInputs(c, f)) == MapSeq(WeightRefs(c), f)
  {
  }

  lemma {:induction false} ConvertKeepsWeights(node: MirNode, resolver: Resolver, shapes: map<string, Shape>)
    requires ConvertNode(node, resolver, shapes).Ok?
    ensures WeightRefs(ConvertNode(node, resolver, shapes).value) == WeightRefs(Direct(node.op))
  {
  }

  lemma {:induction false} NodeWeightsAreMapped(op: MirOp, f: Renaming)
    ensures NodeWeights(op, f) == MapSeq(WeightRefs(Direct(op)), f)
  {
  }

  lemma {:induction false} NodeWeightsEmitted(nodes: seq<MirNode>, resolver: Resolver, shapes: map<string, Shape>, f: Renaming)
    requires Converted(nodes, resolver, shapes, f, |nodes|).Ok?
    ensures var ops := Converted(nodes, resolver, shapes, f, |nodes|).value;
            |ops| == |nodes| && forall i | 0 <= i < |nodes| :: WeightRefs(ops[i]) == NodeWeights(nodes[i].op, f)
  {
    ConvertedOps(nodes, resolver, shapes, f, |nodes|);
    forall i | 0 <= i < |nodes| ensures WeightRefs(Converted(nodes, resolver, shapes, f, |nodes|).value[i]) == NodeWeights(nodes[i].op, f) {
      ConvertKeepsWeights(nodes[i], resolver, shapes);
      RemapMapsWeights(ConvertNode(nodes[i], resolver, shapes).value, f);
      NodeWeightsAreMapped(nodes[i].op, f);
    }
  }

  lemma {:induction false} ConstNamesAreConstIds(nodes: seq<MirNode>, resolver: Resolver, shapes: map<string, Shape>, f: Renaming, ops: seq<CompatOp>)
    requires Converted(nodes, resolver, shapes, f, |nodes|) == Ok(ops)
    ensures ConstNames(ops) == ConstIds(nodes)
  {
    ConvertedOps(nodes, resolver, shapes, f, |nodes|);
    forall w | w in ConstNames(ops) ensures w in ConstIds(nodes) {
      var i :| 0 <= i < |ops| && ops[i].Constant? && ops[i].name == w;
      assert nodes[i] in nodes && OutputName(ops[i]) == w;
    }
    forall w | w in ConstIds(nodes) ensures w in ConstNames(ops) {
      var i :| 0 <= i < |nodes| && nodes[i].op.Const? && nodes[i].id == w;
      assert ops[i] in ops && OutputName(ops[i]) == w;
    }
  }

  lemma {:induction false} ConvertedNames(nodes: seq<MirNode>, resolver: Resolver, f: Renaming, ops: seq<CompatOp>)
    requires Converted(nodes, resolver, DeclaredShapes(nodes), f, |nodes|) == Ok(ops)
    ensures |ops| == |nodes| && forall i | 0 <= i < |ops| :: OutputName(ops[i]) == nodes[i].id
    ensures forall id :: id in NodeIds(nodes) <==> exists i :: 0 <= i < |ops| && OutputName(ops[i]) == id
  {
    ConvertedOps(nodes, resolver, DeclaredShapes(nodes), f, |nodes|);
    forall id ensures id in NodeIds(nodes) <==> exists i :: 0 <= i < |ops| && OutputName(ops[i]) == id {
      if id in NodeIds(nodes) {
        var n :| n in nodes && n.id == id;
        var i :| 0 <= i < |nodes| && nodes[i] == n;
        assert OutputName(ops[i]) == id;
      }
      if i :| 0 <= i < |ops| && OutputName(ops[i]) == id { assert nodes[i] in nodes; }
    }
  }

  lemma {:induction false} ConstantsAvoidIds(nodes: seq<MirNode>, resolver: Resolver, f: Renaming, allowMissing: bool,
                          names: seq<string>, consts: seq<CompatOp>, ops: seq<CompatOp>)
    requires Emitted(nodes, resolver, f, allowMissing, names, consts, ops)
    ensures (forall c | c in consts :: c.Constant? && c.name !in NodeIds(nodes))
            <==> !Clashes(nodes, f, resolver)
  {
    var ids, shapes := NodeIds(nodes), DeclaredShapes(nodes);
    EmittedConstants(names, resolver, allowMissing);
    NodeWeightsEmitted(nodes, resolver, shapes, f);
    ConstNamesAreConstIds(nodes, resolver, shapes, f, ops);
    if Clashes(nodes, f, resolver) {
      var n, w :| n in nodes && w in NodeWeights(n.op, f) && w in ids && w !in ConstIds(nodes) && !LeftOut(w, resolver);
      var i :| 0 <= i < |nodes| && nodes[i] == n;
      ClashIsEmitted(ops[i], w, names, ops, ids, resolver);
      var k :| k in consts && k.name == w;
    } else {
      forall k | k in consts ensures k.Constant? && k.name !in ids {
        var i :| 0 <= i < |ops| && WantedBy(k.name, ops[i], ConstNames(ops), ids, resolver);
        assert nodes[i] in nodes;
      }
    }
  }

  lemma {:induction false} ClashIsEmitted(c: CompatOp, w: string, names: seq<string>, ops: seq<CompatOp>, ids: set<string>, resolver: Resolver)
    requires SortedWanted(names, ops, ids, resolver)
    requires c in ops && w in WeightRefs(c) && w !in ConstNames(ops)
    ensures w in names
  {
    assert WantedBy(w, c, ConstNames(ops), ids, resolver);
  }

  /** All emitted names are pairwise distinct exactly when the node ids are and no weight bears
      the id of a node that is no constant. */
  lemma {:induction false} NamesDistinct(nodes: seq<MirNode>, resolver: Resolver, f: Renaming, allowMissing: bool,
                      names: seq<string>, consts: seq<CompatOp>, ops: seq<CompatOp>)
    requires Emitted(nodes, resolver, f, allowMissing, names, consts, ops)
    ensures DistinctNames(consts + ops) <==>
      UniqueIds(nodes) && !Clashes(nodes, f, resolver)
  {
    ConvertedNames(nodes, resolver, f, ops);
    EmittedConstants(names, resolver, allowMissing);
    ConstantsAvoidIds(nodes, resolver, f, allowMissing, names, consts, ops);
    ConstantsDistinct(consts);
    DistinctAppend(consts, ops);
    UniqueFromNames(nodes, ops);
    NoneShared(nodes, consts, ops);
  }

  lemma {:induction false} NoneShared(nodes: seq<MirNode>, consts: seq<CompatOp>, ops: seq<CompatOp>)
    requires forall c | c in consts :: c.Constant?
    requires |ops| == |nodes| && forall i | 0 <= i < |ops| :: OutputName(ops[i]) == nodes[i].id
    ensures (forall i, j | 0 <= i < |consts| && 0 <= j < |ops| :: OutputName(consts[i]) != OutputName(ops[j]))
            <==> forall c | c in consts :: c.Constant? && c.name !in NodeIds(nodes)
  {
    forall i | 0 <= i < |consts| ensures consts[i] in consts && OutputName(consts[i]) == consts[i].name {}
    if forall i, j | 0 <= i < |consts| && 0 <= j < |ops| :: OutputName(consts[i]) != OutputName(ops[j]) {
      forall c | c in consts ensures c.name !in NodeIds(nodes) {
        var i :| 0 <= i < |consts| && consts[i] == c;
        forall n | n in nodes ensures n.id != c.name {
          var j :| 0 <= j < |nodes| && nodes[j] == n;
          assert OutputName(consts[i]) != OutputName(ops[j]);
        }
      }
    }
    if forall c | c in consts :: c.Constant? && c.name !in NodeIds(nodes) {
      forall i, j | 0 <= i < |consts| && 0 <= j < |ops| ensures OutputName(consts[i]) != OutputName(ops[j]) {
        assert nodes[j] in nodes && nodes[j].id in NodeIds(nodes);
      }
    }
  }

  lemma {:induction false} ConstantsDistinct(consts: seq<CompatOp>)
    requires forall i, j | 0 <= i < j < |consts| :: LexLess(OutputName(consts[i]), OutputName(consts[j]))
    ensures DistinctNames(consts)
  {
    forall i, j | 0 <= i < j < |consts| ensures OutputName(consts[i]) != OutputName(consts[j]) {
      LexTrichotomy(OutputName(consts[i]), OutputName(consts[j]));
    }
  }

  lemma {:induction false} DistinctAppend(consts: seq<CompatOp>, ops: seq<CompatOp>)
    ensures DistinctNames(consts + ops) <==>
      && DistinctNames(consts) && DistinctNames(ops)
      && forall i, j | 0 <= i < |consts| && 0 <= j < |ops| :: OutputName(consts[i]) != OutputName(ops[j])
  {
    var all := consts + ops;
    if DistinctNames(all) {
      forall i, j | 0 <= i < j < |ops| ensures OutputName(ops[i]) != OutputName(ops[j]) {
        assert all[|consts| + i] == ops[i] && all[|consts| + j] == ops[j];
      }
      forall i, j | 0 <= i < |consts| && 0 <= j < |ops| ensures OutputName(consts[i]) != OutputName(ops[j]) {
        assert all[i] == consts[i] && all[|consts| + j] == ops[j];
      }
      forall i, j | 0 <= i < j < |consts| ensures OutputName(consts[i]) != OutputName(consts[j]) {
        assert all[i] == consts[i] && all[j] == consts[j];
      }
    }
  }

  lemma {:induction false} UniqueFromNames(nodes: seq<MirNode>, ops: seq<CompatOp>)
    requires |ops| == |nodes| && forall i | 0 <= i < |ops| :: OutputName(ops[i]) == nodes[i].id
    ensures DistinctNames(ops) <==> UniqueIds(nodes)
  {
    if DistinctNames(ops) {
      forall i, j | 0 <= i < j < |nodes| ensures nodes[i].id != nodes[j].id {
        assert OutputName(ops[i]) != OutputName(ops[j]);
      }
    }
  }

  /** Every weight or bias of a linear or layer-norm operation, unless it is an optional table
      that was left out, names a constant; with distinct names it names exactly one. */
  lemma {:induction false} WeightsAreConstants(nodes: seq<MirNode>, resolver: Resolver, f: Renaming, allowMissing: bool,
                            names: seq<string>, consts: seq<CompatOp>, ops: seq<CompatOp>, c: CompatOp, w: string)
    requires Emitted(nodes, resolver, f, allowMissing, names, consts, ops)
    requires c in ops && w in WeightRefs(c) && !LeftOut(w, resolver)
    ensures exists i :: 0 <= i < |consts + ops| && (consts + ops)[i].Constant? && (consts + ops)[i].name == w
    ensures DistinctNames(consts + ops) ==>
      forall i, j | 0 <= i < |consts + ops| && 0 <= j < |consts + ops|
                    && OutputName((consts + ops)[i]) == w == OutputName((consts + ops)[j]) :: i == j
    ensures forall k | k in consts :: k.Constant?
  {
    EmittedConstants(names, resolver, allowMissing);
    if w in ConstNames(ops) {
      var k :| k in ops && k.Constant? && k.name == w;
      var i :| 0 <= i < |ops| && ops[i] == k;
      assert (consts + ops)[|consts| + i] == k;
    } else {
      assert WantedBy(w, c, ConstNames(ops), NodeIds(nodes), resolver);
      assert w in names;
      var k :| k in consts && k.name == w;
      var i :| 0 <= i < |consts| && consts[i] == k;
      assert (consts + ops)[i] == k;
    }
  }

  // ----- which weight is reported

  ghost predicate Unresolved(w: string, resolver: Resolver) { resolver(w).None? && !(STATIC <= w) }

  ghost predicate IsLeast(w: string, names: seq<string>, resolver: Resolver) {
    && w in names && Unresolved(w, resolver)
    && forall v | v in names && Unresolved(v, resolver) && v != w :: LexLess(w, v)
  }

  lemma {:induction false} ReportedIsLeast(names: seq<string>, resolver: Resolver)
    requires Ascending(names)
    ensures match Materialized(names, resolver, false)
            case Ok(_) => forall v | v in names :: !Unresolved(v, resolver)
            case Err(e) => e.UnresolvedWeight? && IsLeast(e.path, names, resolver)
  {
    if names != [] {
      var init, last := names[..|names| - 1], names[|names| - 1];
      assert names == init + [last];
      ReportedIsLeast(init, resolver);
      LastIsGreatest(init, last);
      assert forall v :: v in names <==> v in init || v == last;
    }
  }

  lemma {:induction false} LastIsGreatest(init: seq<string>, last: string)
    requires Ascending(init + [last])
    ensures forall v | v in init :: LexLess(v, last)
  {
    forall v | v in init ensures LexLess(v, last) {
      var i :| 0 <= i < |init| && init[i] == v;
      assert (init + [last])[i] == v && (init + [last])[|init|] == last;
    }
  }

  /** Without placeholders, the weight reported is the least of the wanted weights that nobody
      resolves and that is no optional table; there is a report exactly when there is one. */
  lemma {:induction false} LeastUnresolvedReported(names: seq<string>, ops: seq<CompatOp>, ids: set<string>, resolver: Resolver, w: string)
    requires SortedWanted(names, ops, ids, resolver)
    ensures Materialized(names, resolver, false) == Err(UnresolvedWeight(w)) <==>
      && Wanted(w, ops, ConstNames(ops), ids, resolver) && Unresolved(w, resolver)
      && forall v | Wanted(v, ops, ConstNames(ops), ids, resolver) && Unresolved(v, resolver) && v != w :: LexLess(w, v)
    ensures Materialized(names, resolver, false).Ok? <==>
      forall v | Wanted(v, ops, ConstNames(ops), ids, resolver) :: !Unresolved(v, resolver)
  {
    ReportedIsLeast(names, resolver);
    var r := Materialized(names, resolver, false);
    if r.Err? { LexTrichotomy(w, r.error.path); }
  }

  /** Placeholders on request: then no weight is ever reported missing. */
  lemma {:induction false} PlaceholdersNeverFail(names: seq<string>, resolver: Resolver)
    ensures Materialized(names, resolver, true).Ok?
  {
    if names != [] { PlaceholdersNeverFail(names[..|names| - 1], resolver); }
  }

  // ----- with names written out

  /** Every materialised weight carries its tensor; one that nobody resolves is, if that is allowed,
      a single half-precision zero, and never a static table. */
  lemma {:induction false} MaterializedIs(names: seq<string>, resolver: Resolver, allowMissing: bool, c: CompatOp)
    requires Materialized(names, resolver, allowMissing).Ok? && c in Materialized(names, resolver, allowMissing).value
    ensures c.Constant? && c.name in names
    ensures resolver(c.name).Some? ==> WeightData(c.data, c.shape, c.dtype) == resolver(c.name).value
    ensures resolver(c.name).None? ==>
      allowMissing && c.data == [0, 0] && c.shape == [1] && c.dtype == Fp16 && !("static_tables/" <= c.name)
  {
    if names != [] {
      var init := names[..|names| - 1];
      assert names == init + [names[|names| - 1]];
      if c in Materialized(init, resolver, allowMissing).value { MaterializedIs(init, resolver, allowMissing, c); }
    }
  }

  /** The shape declared for an id is that of the last node of that id which declares one. */
  lemma {:induction false} DeclaredIsLast(nodes: seq<MirNode>, id: string, k: nat)
    ensures (forall j | 0 <= j < |nodes| && nodes[j].id == id :: nodes[j].shape == []) <==> id !in DeclaredShapes(nodes)
    ensures k < |nodes| && nodes[k].id == id && nodes[k].shape != [] && (forall j | k < j < |nodes| && nodes[j].id == id :: nodes[j].shape == []) ==>
            id in DeclaredShapes(nodes) && DeclaredShapes(nodes)[id] == nodes[k].shape
  {
    if nodes != [] {
      var init := nodes[..|nodes| - 1];
      DeclaredIsLast(init, id, k);
      assert forall j | 0 <= j < |init| :: init[j] == nodes[j];
    }
  }

  /** A wanted weight is left out exactly if it is a static table that nobody resolves. */
  lemma {:induction false} LeftOutIs(names: seq<string>, resolver: Resolver, allowMissing: bool, w: string)
    requires Ascending(names) && Materialized(names, resolver, allowMissing).Ok? && w in names
    ensures (exists c :: c in Materialized(names, resolver, allowMissing).value && c.Constant? && c.name == w)
            <==> resolver(w).Some? || !(|w| >= 14 && w[..14] == "static_tables/")
  {
    EmittedConstants(names, resolver, allowMissing);
    assert STATIC <= w <==> |w| >= 14 && w[..14] == "static_tables/";
    if c :| c in Materialized(names, resolver, allowMissing).value && c.Constant? && c.name == w { assert !LeftOut(w, resolver); }
  }
}
