/** The lowering preserves meaning: the emitted operations, run in order with plain lookups of
    names, compute for every node what the graph itself says the node computes. */
module Meaning {
  import opened Wrappers
  import opened Strings
  import opened Bytes
  import opened ShapeOps
  import opened Weights
  import opened Mir
  import opened ReshapeReading
  import opened ReshapeResolution
  import opened Compat
  import opened Lowering

  /** What an operation does, apart from the names it uses. */
  datatype Action =
    | Literal(data: seq<byte>, dtype: Dtype, shape: Shape)
    | Input(id: string, dtype: Dtype)
    | External(name: string)
    | Copy(dtype: Dtype)
    | Load(stateId: string, shape: Shape, dtype: Dtype)
    | Store(stateId: string)
    | Resize(target: seq<int>)
    | Undetermined(written: Shape)
    | Opaque(tag: string, attributes: string)
    | Compute(op: MirOp)

  /** Any interpretation of the actions on values of any type. */
  type Semantics<!V> = (Action, seq<V>) -> V

  /** An operation with all names blanked; how many operands it has is seen from their values. */
  function Blank(op: MirOp): MirOp {
    match op
    case Const(_, _, dtype) => Const("", "", dtype)
    case Linear(_, _, _, _) => Linear("", "", "", None)
    case LayerNorm(_, _, _, _) => LayerNorm("", "", "", None)
    case Unary(kind, _, _) => Unary(kind, "", "")
    case Binary(tag, _, _, _) => Binary(tag, "", "", "")
    case Where(_, _, _, _) => Where("", "", "", "")
    case Select(_, _, _, _) => Select("", "", "", "")
    case MatMul(_, _, _, transposeY) => MatMul("", "", "", transposeY)
    case Attention(_, _, _, _, _) => Attention("", "", "", "", None)
    case Gather(_, _, _, axis) => Gather("", "", "", axis)
    case Concat(_, _, axis) => Concat("", [], axis)
    case Stack(_, _, axis) => Stack("", [], axis)
    case Split(_, _, axis, numSplits) => Split("", "", axis, numSplits)
    case SliceByIndex(_, _, begin, end, stride, beginMask, endMask, squeezeMask) =>
      SliceByIndex("", "", begin, end, stride, beginMask, endMask, squeezeMask)
    case Reduce(tag, _, _, axes, keepDims) => Reduce(tag, "", "", axes, keepDims)
    case Reshape(_, _, target) => Reshape("", "", target)
    case Transpose(_, _, perm) => Transpose("", "", perm)
    case Tile(_, _, reps) => Tile("", "", reps)
    case ExpandDims(_, _, axes) => ExpandDims("", "", axes)
    case Squeeze(_, _, axes) => Squeeze("", "", axes)
    case Pad(_, _, padAmounts) => Pad("", "", padAmounts)
    case Topk(_, _, k, axis) => Topk("", "", k, axis)
    case Flatten2d(_, _, axis) => Flatten2d("", "", axis)
    case Conv(_, _, _, strides, padAmounts, dilations) => Conv("", "", "", strides, padAmounts, dilations)
    case ConvTranspose(_, _, _, outputShape) => ConvTranspose("", "", "", outputShape)
    case Fill(_, target) => Fill("", target)
    case ReadState(_, stateId, target, dtype) => ReadState("", stateId, target, dtype)
    case UpdateState(_, stateId, _) => UpdateState("", stateId, "")
    case Identity(_, _) => Identity("", "")
    case Other(tag, _, _, attributes) => Other(tag, "", [], attributes)
  }

  // ----- what the graph means

  /** A name stands for the node of that id, or else for what it is an alias of. */
  function Follow(nodes: seq<MirNode>, aliases: map<string, string>, name: string): string {
    if name in NodeIds(nodes) then name else if name in aliases then aliases[name] else name
  }

  /** The shape declared for what a name stands for. */
  function DeclaredShape(nodes: seq<MirNode>, aliases: map<string, string>, name: string): Option<Shape> {
    var shapes, t := DeclaredShapes(nodes), Follow(nodes, aliases, name);
    if t in shapes then Some(shapes[t]) else None
  }

  /** The tensor of that name, just as the resolver gives it. */
  function WeightAction(name: string, resolver: Resolver): Action {
    match resolver(name)
    case Some(wd) => Literal(wd.data, wd.dtype, wd.shape)
    case None => External(name)
  }

  /** A concrete target as it stands, and one with zeros as its declarations settle it. */
  ghost function ReshapeAction(target: Shape, declared: Shape, input: Option<Shape>): Action {
    if 0 !in target then Resize(target)
    else if exists t: Shape :: Denotes(t, target, declared, input) then
      var t: Shape :| Denotes(t, target, declared, input);
      Resize(t)
    else Undetermined(target)
  }

  /** What a node computes from its operands, by the node's own attributes. */
  ghost function NodeAction(nodes: seq<MirNode>, aliases: map<string, string>, node: MirNode, resolver: Resolver): Action {
    match node.op
    case Const(_, valuePath, _) => WeightAction(valuePath, resolver)
    case Identity(_, x) => if x == PLACEHOLDER then Input(node.id, node.dtype) else Copy(node.dtype)
    case ReadState(_, stateId, target, dtype) => Load(stateId, target, dtype)
    case UpdateState(_, stateId, _) => Store(stateId)
    case Reshape(_, x, target) => ReshapeAction(target, node.shape, DeclaredShape(nodes, aliases, x))
    case Unary(Unlisted(tag, attributes), _, _) => Opaque(tag, attributes)
    case Other(tag, _, _, attributes) => Opaque(tag, attributes)
    case _ => Compute(Blank(node.op))
  }

  /** The names a node reads. */
  function Reads(node: MirNode): seq<string> {
    if node.op.Identity? && node.op.x == PLACEHOLDER then [] else OperandNames(node.op)
  }

  /** A node's value, or else the weight of that name, or else something outside the graph. */
  function ValueOf<V>(name: string, env: map<string, V>, resolver: Resolver, run: Semantics<V>): V {
    if name in env then env[name] else run(WeightAction(name, resolver), [])
  }

  function NodeOperands<V>(graph: MirGraph, k: nat, resolver: Resolver, aliases: map<string, string>,
                           env: map<string, V>, run: Semantics<V>): (r: seq<V>)
    requires k < |graph.nodes|
    ensures |r| == |Reads(graph.nodes[k])|
  {
    var names := Reads(graph.nodes[k]);
    seq(|names|, i requires 0 <= i < |names| => ValueOf(Follow(graph.nodes, aliases, names[i]), env, resolver, run))
  }

  /** The values of the first `k` nodes. */
  ghost function EvalGraph<V>(graph: MirGraph, resolver: Resolver, aliases: map<string, string>, run: Semantics<V>, k: nat): map<string, V>
    requires k <= |graph.nodes|
  {
    if k == 0 then map[]
    else
      var env := EvalGraph(graph, resolver, aliases, run, k - 1);
      var action := NodeAction(graph.nodes, aliases, graph.nodes[k - 1], resolver);
      env[graph.nodes[k - 1].id := run(action, NodeOperands(graph, k - 1, resolver, aliases, env, run))]
  }

  // ----- what the emitted operations mean

  function OpAction(c: CompatOp): Action {
    match c
    case Constant(_, data, dtype, shape) => Literal(data, dtype, shape)
    case InputPlaceholder(name, dtype) => Input(name, dtype)
    case TypedIdentity(_, _, dtype) => Copy(dtype)
    case TypedReadState(_, stateId, shape, dtype) => Load(stateId, shape, dtype)
    case ConcreteReshape(_, _, target) => Resize(target)
    case Unsupported(tag, _, _) => Opaque(tag, "")
    case Direct(UpdateState(_, stateId, _)) => Store(stateId)
    case Direct(op) => Compute(Blank(op))
  }

  function Fetch<V>(name: string, env: map<string, V>, run: Semantics<V>): V {
    if name in env then env[name] else run(External(name), [])
  }

  function OpOperands<V>(c: CompatOp, env: map<string, V>, run: Semantics<V>): (r: seq<V>)
    ensures |r| == |Operands(c)|
  {
    seq(|Operands(c)|, i requires 0 <= i < |Operands(c)| => Fetch(Operands(c)[i], env, run))
  }

  /** The names bound after running all operations in order. */
  function Execute<V>(ops: seq<CompatOp>, run: Semantics<V>): map<string, V> {
    if ops == [] then map[]
    else
      var env, last := Execute(ops[..|ops| - 1], run), ops[|ops| - 1];
      env[OutputName(last) := run(OpAction(last), OpOperands(last, env, run))]
  }

  // ----- one operation

  /** The emitted constant is the tensor: there is one, of the dtype and shape that are put on it. */
  ghost predicate ConstCarries(op: MirOp, nodeShape: Shape, resolver: Resolver)
    requires op.Const?
  {
    && resolver(op.valuePath).Some?
    && op.dtype == resolver(op.valuePath).value.dtype
    && (nodeShape == [] || nodeShape == resolver(op.valuePath).value.shape)
  }

  /** A target without negative dimensions, as a shape. */
  function Unsigned(target: seq<int>): Option<Shape> {
    if forall i | 0 <= i < |target| :: target[i] >= 0
    then Some(seq(|target|, i requires 0 <= i < |target| => target[i]))
    else None
  }

  /** The emitted target is the one written or, if that holds zeros, what they mean. */
  ghost predicate TargetCarries(written: Shape, declared: Shape, input: Option<Shape>, emitted: seq<int>) {
    && Unsigned(emitted).Some?
    && var t := Unsigned(emitted).value;
       if 0 !in written then t == written else Fits(t, written, declared, input) && Determined(t, written, declared, input)
  }

  /** Which operations carry over in full. */
  ghost predicate OpCarries(nodes: seq<MirNode>, aliases: map<string, string>, node: MirNode, resolver: Resolver) {
    match node.op
    case Const(_, _, _) => ConstCarries(node.op, node.shape, resolver)
    case ReadState(_, _, _, dtype) => dtype == node.dtype
    case Reshape(_, x, target) =>
      TargetCarries(target, node.shape, DeclaredShape(nodes, aliases, x),
                    AsI32s(ReshapeTarget(node.op, node.shape, DeclaredShapes(nodes))))
    case Flatten2d(_, _, _) => false
    case ConvTranspose(_, _, _, _) => false
    case Unary(Listed(_, lost), _, _) => lost == ""
    case Unary(Unlisted(_, attributes), _, _) => attributes == ""
    case Reduce(tag, _, _, _, _) => tag in LISTED_REDUCTIONS
    case Other(_, _, _, attributes) => attributes == ""
    case _ => true
  }

  ghost predicate StateKept(op: MirOp, f: Renaming) { op.UpdateState? ==> f(op.stateId) == op.stateId }

  lemma {:induction false} BlankIgnoresNames(op: MirOp, f: Renaming)
    requires !op.UpdateState?
    ensures Blank(MapNames(op, f)) == Blank(op) && !MapNames(op, f).UpdateState?
  {
    if OneOperand(op) { BlankIgnoresName(op, f); }
  }

  lemma {:induction false} BlankIgnoresName(op: MirOp, f: Renaming)
    requires OneOperand(op) && !op.UpdateState?
    ensures Blank(MapNames(op, f)) == Blank(op) && !MapNames(op, f).UpdateState?
  {
    if ResizesAxes(op) { BlankIgnoresResizing(op, f); }
  }

  lemma {:induction false} BlankIgnoresResizing(op: MirOp, f: Renaming)
    requires ResizesAxes(op)
    ensures Blank(MapNames(op, f)) == Blank(op) && !MapNames(op, f).UpdateState?
  {
    if op.Split? || op.SliceByIndex? || op.Reduce? { BlankIgnoresShrinking(op, f); }
  }

  lemma {:induction false} BlankIgnoresShrinking(op: MirOp, f: Renaming)
    requires op.Split? || op.SliceByIndex? || op.Reduce?
    ensures Blank(MapNames(op, f)) == Blank(op) && !MapNames(op, f).UpdateState?
  {
  }

  lemma {:induction false} RemapKeepsAction(c: CompatOp, f: Renaming)
    ensures OpAction(RemapInputs(c, f)) == OpAction(c) <==> (c.Direct? ==> StateKept(c.op, f))
  {
    if c.Direct? && !c.op.UpdateState? { BlankIgnoresNames(c.op, f); }
  }

  lemma {:induction false} ReshapeMeaning(target: Shape, declared: Shape, input: Option<Shape>, emitted: seq<int>)
    ensures Resize(emitted) == ReshapeAction(target, declared, input) <==> TargetCarries(target, declared, input, emitted)
  {
    if Unsigned(emitted).Some? {
      var t := Unsigned(emitted).value;
      assert emitted == t;
      DenotesIff(t, target, declared, input);
      if Denotes(t, target, declared, input) {
        forall r | Denotes(r, target, declared, input) ensures r == t { DenotesOne(r, t, target, declared, input); }
      }
    }
    forall r: Shape | emitted == r ensures Unsigned(emitted) == Some(r) {}
  }

  /** The conversion keeps what a node computes exactly for the operations that carry over. */
  lemma {:induction false} ConvertKeepsAction(nodes: seq<MirNode>, aliases: map<string, string>, node: MirNode, resolver: Resolver)
    requires ConvertNode(node, resolver, DeclaredShapes(nodes)).Ok?
    ensures OpAction(ConvertNode(node, resolver, DeclaredShapes(nodes)).value) == NodeAction(nodes, aliases, node, resolver)
            <==> OpCarries(nodes, aliases, node, resolver)
  {
    if node.op.Reshape? {
      var emitted := AsI32s(ReshapeTarget(node.op, node.shape, DeclaredShapes(nodes)));
      assert ConvertNode(node, resolver, DeclaredShapes(nodes)) == Ok(ConcreteReshape(node.id, node.op.x, emitted));
      ReshapeMeaning(node.op.target, node.shape, DeclaredShape(nodes, aliases, node.op.x), emitted);
    } else if node.op.Const? {
      ConstMeaning(node, resolver, DeclaredShapes(nodes));
    } else {
      OtherMeaning(nodes, aliases, node, resolver);
    }
  }

  lemma {:induction false} ConstMeaning(node: MirNode, resolver: Resolver, shapes: map<string, Shape>)
    requires node.op.Const?
    ensures ConvertNode(node, resolver, shapes).Ok?
    ensures OpAction(ConvertNode(node, resolver, shapes).value) == WeightAction(node.op.valuePath, resolver)
            <==> ConstCarries(node.op, node.shape, resolver)
  {
  }

  lemma {:induction false} OtherMeaning(nodes: seq<MirNode>, aliases: map<string, string>, node: MirNode, resolver: Resolver)
    requires !node.op.Reshape? && !node.op.Const?
    requires ConvertNode(node, resolver, DeclaredShapes(nodes)).Ok?
    ensures OpAction(ConvertNode(node, resolver, DeclaredShapes(nodes)).value) == NodeAction(nodes, aliases, node, resolver)
            <==> OpCarries(nodes, aliases, node, resolver)
  {
    if ResizesAxes(node.op) && !node.op.Reduce? { ResizingMeaning(nodes, aliases, node, resolver); }
  }

  lemma {:induction false} ResizingMeaning(nodes: seq<MirNode>, aliases: map<string, string>, node: MirNode, resolver: Resolver)
    requires ResizesAxes(node.op) && !node.op.Reduce?
    ensures ConvertNode(node, resolver, DeclaredShapes(nodes)).Ok?
    ensures OpAction(ConvertNode(node, resolver, DeclaredShapes(nodes)).value) == NodeAction(nodes, aliases, node, resolver)
    ensures OpCarries(nodes, aliases, node, resolver)
  {
  }

  lemma {:induction false} ConvertKeepsReads(node: MirNode, resolver: Resolver, shapes: map<string, Shape>)
    requires ConvertNode(node, resolver, shapes).Ok?
    ensures Operands(ConvertNode(node, resolver, shapes).value) == Reads(node)
  {
    if ResizesAxes(node.op) {
      ResizingReads(node, resolver, shapes);
    } else if OneOperand(node.op) {
      OneIsRead(node, resolver, shapes);
    }
  }

  lemma {:induction false} OneIsRead(node: MirNode, resolver: Resolver, shapes: map<string, Shape>)
    requires OneOperand(node.op) && !ResizesAxes(node.op) && ConvertNode(node, resolver, shapes).Ok?
    ensures Operands(ConvertNode(node, resolver, shapes).value) == Reads(node)
  {
  }

  lemma {:induction false} ResizingReads(node: MirNode, resolver: Resolver, shapes: map<string, Shape>)
    requires ResizesAxes(node.op)
    ensures ConvertNode(node, resolver, shapes).Ok? && Operands(ConvertNode(node, resolver, shapes).value) == [node.op.x] == Reads(node)
  {
  }

  lemma {:induction false} ConvertKeepsState(node: MirNode, resolver: Resolver, shapes: map<string, Shape>, f: Renaming)
    requires ConvertNode(node, resolver, shapes).Ok?
    ensures var c := ConvertNode(node, resolver, shapes).value; (c.Direct? ==> StateKept(c.op, f)) <==> StateKept(node.op, f)
  {
  }

  /** Every operand an operation is given is among the names it is said to refer to. */
  lemma {:induction false} OperandsAreInputs(c: CompatOp)
    ensures forall n | n in Operands(c) :: n in InputNames(c)
  {
  }

  // ----- the materialised weights

  ghost predicate AllResolved(names: seq<string>, resolver: Resolver) {
    forall w | w in names :: !Unresolved(w, resolver)
  }

  ghost predicate BoundToWeight<V>(n: string, env: map<string, V>, names: seq<string>, resolver: Resolver, run: Semantics<V>) {
    && (n in env <==> n in names && resolver(n).Some?)
    && (n in env ==> env[n] == run(WeightAction(n, resolver), []))
  }

  /** The constants bind exactly the wanted weights that resolve, each to its tensor. */
  lemma {:induction false} ConstantsBindWeights<V>(names: seq<string>, resolver: Resolver, allowMissing: bool,
                                                   consts: seq<CompatOp>, run: Semantics<V>)
    requires Materialized(names, resolver, allowMissing) == Ok(consts) && AllResolved(names, resolver)
    ensures forall n :: BoundToWeight(n, Execute(consts, run), names, resolver, run)
  {
    if names != [] {
      var init, last := names[..|names| - 1], names[|names| - 1];
      var before := Materialized(init, resolver, allowMissing).value;
      ConstantsBindWeights(init, resolver, allowMissing, before, run);
      assert names == init + [last] && !Unresolved(last, resolver);
      MaterializedNext(names, resolver, allowMissing, before, consts, run);
      forall n ensures BoundToWeight(n, Execute(consts, run), names, resolver, run) {
        BoundNext(n, init, last, Execute(before, run), Execute(consts, run), resolver, run);
      }
    }
  }

  /** The last name adds its tensor, if it has one, and nothing else. */
  lemma {:induction false} MaterializedNext<V>(names: seq<string>, resolver: Resolver, allowMissing: bool,
                                               before: seq<CompatOp>, consts: seq<CompatOp>, run: Semantics<V>)
    requires names != [] && !Unresolved(names[|names| - 1], resolver)
    requires Materialized(names[..|names| - 1], resolver, allowMissing) == Ok(before)
    requires Materialized(names, resolver, allowMissing) == Ok(consts)
    ensures var last := names[|names| - 1];
            Execute(consts, run) == if resolver(last).Some? then Execute(before, run)[last := run(WeightAction(last, resolver), [])]
                                    else Execute(before, run)
  {
    var last := names[|names| - 1];
    if resolver(last).Some? {
      var wd := resolver(last).value;
      ExecuteNext(before, Constant(last, wd.data, wd.dtype, wd.shape), run);
      assert OpOperands(Constant(last, wd.data, wd.dtype, wd.shape), Execute(before, run), run) == [];
    }
  }

  lemma {:induction false} ExecuteNext<V>(ops: seq<CompatOp>, last: CompatOp, run: Semantics<V>)
    ensures var env := Execute(ops, run);
            Execute(ops + [last], run) == env[OutputName(last) := run(OpAction(last), OpOperands(last, env, run))]
  {
    assert (ops + [last])[..|ops|] == ops;
  }

  lemma {:induction false} BoundNext<V>(n: string, init: seq<string>, last: string, before: map<string, V>, after: map<string, V>,
                                        resolver: Resolver, run: Semantics<V>)
    requires BoundToWeight(n, before, init, resolver, run)
    requires after == if resolver(last).Some? then before[last := run(WeightAction(last, resolver), [])] else before
    ensures BoundToWeight(n, after, init + [last], resolver, run)
  {
  }

  // ----- all operations

  /** The name is not passed over: if it is a node's, no alias leads elsewhere. */
  ghost predicate Unshadowed(nodes: seq<MirNode>, aliases: map<string, string>, name: string) {
    name in NodeIds(nodes) && name in aliases ==> aliases[name] == name
  }

  /** What the name stands for comes before node `k`, if it is a node. */
  ghost predicate ReadsBack(nodes: seq<MirNode>, k: nat, aliases: map<string, string>, name: string)
    requires k < |nodes|
  {
    Follow(nodes, aliases, name) in NodeIds(nodes) ==> Follow(nodes, aliases, name) in NodeIds(nodes[..k])
  }

  /** What the lowering asks of a node: its operation carries over, a state it updates is not
      itself an alias, no node it reads is shadowed, and all of them come before it. */
  ghost predicate Carries(graph: MirGraph, k: nat, resolver: Resolver, aliases: map<string, string>)
    requires k < |graph.nodes|
  {
    var node := graph.nodes[k];
    && OpCarries(graph.nodes, aliases, node, resolver)
    && StateKept(node.op, Redirect(aliases))
    && forall n | n in Reads(node) :: Unshadowed(graph.nodes, aliases, n) && ReadsBack(graph.nodes, k, aliases, n)
  }

  ghost predicate WellFormed(graph: MirGraph, upTo: nat, resolver: Resolver, aliases: map<string, string>)
    requires upTo <= |graph.nodes|
  {
    forall k | 0 <= k < upTo :: Carries(graph, k, resolver, aliases)
  }

  /** Names are redirected to what they stand for exactly where nothing is shadowed. */
  lemma {:induction false} RedirectFollows(nodes: seq<MirNode>, aliases: map<string, string>, name: string)
    ensures Redirect(aliases)(name) == Follow(nodes, aliases, name) <==> Unshadowed(nodes, aliases, name)
  {
  }

  /** The two environments once the nodes `done` have been evaluated. */
  ghost predicate Simulates<V>(done: set<string>, compat: map<string, V>, env: map<string, V>,
                               names: seq<string>, resolver: Resolver, run: Semantics<V>)
  {
    && env.Keys == done
    && (forall n | n in env :: n in compat && compat[n] == env[n])
    && (forall n | n !in env :: BoundToWeight(n, compat, names, resolver, run))
  }

  lemma {:induction false} SimulatesOneMore<V>(done: set<string>, compat: map<string, V>, env: map<string, V>, id: string, v: V,
                            names: seq<string>, resolver: Resolver, run: Semantics<V>)
    requires Simulates(done, compat, env, names, resolver, run)
    ensures Simulates(done + {id}, compat[id := v], env[id := v], names, resolver, run)
  {
    var after := env[id := v];
    forall n | n !in after ensures BoundToWeight(n, compat[id := v], names, resolver, run) {
      assert BoundToWeight(n, compat, names, resolver, run);
    }
  }

  /** A name is looked up alike on both sides. */
  lemma {:induction false} SameValue<V>(graph: MirGraph, k: nat, resolver: Resolver, aliases: map<string, string>, names: seq<string>,
                                        ops: seq<CompatOp>, compat: map<string, V>, env: map<string, V>, run: Semantics<V>, n: string)
    requires k < |graph.nodes| == |ops|
    requires Unshadowed(graph.nodes, aliases, n) && ReadsBack(graph.nodes, k, aliases, n)
    requires Converted(graph.nodes, resolver, DeclaredShapes(graph.nodes), Redirect(aliases), |graph.nodes|) == Ok(ops)
    requires SortedWanted(names, ops, NodeIds(graph.nodes), resolver)
    requires Simulates(NodeIds(graph.nodes[..k]), compat, env, names, resolver, run)
    requires Redirect(aliases)(n) in Operands(ops[k])
    ensures Fetch(Redirect(aliases)(n), compat, run) == ValueOf(Follow(graph.nodes, aliases, n), env, resolver, run)
  {
    var t := Redirect(aliases)(n);
    RedirectFollows(graph.nodes, aliases, n);
    if t !in env {
      assert BoundToWeight(t, compat, names, resolver, run);
      if resolver(t).Some? { OperandIsWanted(graph.nodes, resolver, Redirect(aliases), names, ops, k, t); }
    }
  }

  lemma {:induction false} OperandIsWanted(nodes: seq<MirNode>, resolver: Resolver, f: Renaming,
                                           names: seq<string>, ops: seq<CompatOp>, k: nat, t: string)
    requires Converted(nodes, resolver, DeclaredShapes(nodes), f, |nodes|) == Ok(ops)
    requires SortedWanted(names, ops, NodeIds(nodes), resolver)
    requires k < |ops| && t in Operands(ops[k]) && t !in NodeIds(nodes) && resolver(t).Some?
    ensures t in names
  {
    OperandsAreInputs(ops[k]);
    ConstNamesAreConstIds(nodes, resolver, DeclaredShapes(nodes), f, ops);
    assert WantedBy(t, ops[k], ConstNames(ops), NodeIds(nodes), resolver);
  }

  /** A node and the operation emitted for it take the same operands. */
  lemma {:induction false} SameOperands<V>(graph: MirGraph, k: nat, resolver: Resolver, aliases: map<string, string>, names: seq<string>,
                                           ops: seq<CompatOp>, compat: map<string, V>, env: map<string, V>, run: Semantics<V>)
    requires k < |graph.nodes| == |ops| && Carries(graph, k, resolver, aliases)
    requires Converted(graph.nodes, resolver, DeclaredShapes(graph.nodes), Redirect(aliases), |graph.nodes|) == Ok(ops)
    requires SortedWanted(names, ops, NodeIds(graph.nodes), resolver)
    requires Simulates(NodeIds(graph.nodes[..k]), compat, env, names, resolver, run)
    requires Operands(ops[k]) == MapSeq(Reads(graph.nodes[k]), Redirect(aliases))
    ensures OpOperands(ops[k], compat, run) == NodeOperands(graph, k, resolver, aliases, env, run)
  {
    var read := Reads(graph.nodes[k]);
    forall i | 0 <= i < |read|
      ensures OpOperands(ops[k], compat, run)[i] == NodeOperands(graph, k, resolver, aliases, env, run)[i]
    {
      assert Operands(ops[k])[i] == Redirect(aliases)(read[i]);
      SameValue(graph, k, resolver, aliases, names, ops, compat, env, run, read[i]);
    }
  }

  /** The operation emitted for a node reads the node's operands redirected and bears its id; it
      does what the node does exactly when that carries over. */
  lemma {:induction false} SameAction(graph: MirGraph, k: nat, resolver: Resolver, aliases: map<string, string>, ops: seq<CompatOp>)
    requires k < |graph.nodes|
    requires Converted(graph.nodes, resolver, DeclaredShapes(graph.nodes), Redirect(aliases), |graph.nodes|) == Ok(ops)
    ensures |ops| == |graph.nodes|
    ensures OpAction(ops[k]) == NodeAction(graph.nodes, aliases, graph.nodes[k], resolver)
            <==> OpCarries(graph.nodes, aliases, graph.nodes[k], resolver) && StateKept(graph.nodes[k].op, Redirect(aliases))
    ensures Operands(ops[k]) == MapSeq(Reads(graph.nodes[k]), Redirect(aliases))
    ensures OutputName(ops[k]) == graph.nodes[k].id
  {
    var shapes, f := DeclaredShapes(graph.nodes), Redirect(aliases);
    ConvertedOps(graph.nodes, resolver, shapes, f, |graph.nodes|);
    var c := ConvertNode(graph.nodes[k], resolver, shapes).value;
    ConvertKeepsReads(graph.nodes[k], resolver, shapes);
    RemapMapsOperands(c, f);
    RemappedMeaning(graph.nodes, aliases, graph.nodes[k], resolver);
  }

  lemma {:induction false} RemappedMeaning(nodes: seq<MirNode>, aliases: map<string, string>, node: MirNode, resolver: Resolver)
    requires ConvertNode(node, resolver, DeclaredShapes(nodes)).Ok?
    ensures OpAction(RemapInputs(ConvertNode(node, resolver, DeclaredShapes(nodes)).value, Redirect(aliases)))
            == NodeAction(nodes, aliases, node, resolver)
            <==> OpCarries(nodes, aliases, node, resolver) && StateKept(node.op, Redirect(aliases))
  {
    var c, f := ConvertNode(node, resolver, DeclaredShapes(nodes)).value, Redirect(aliases);
    ConvertKeepsAction(nodes, aliases, node, resolver);
    ConvertKeepsState(node, resolver, DeclaredShapes(nodes), f);
    RemapKeepsAction(c, f);
    if node.op.UpdateState? { StateMeaning(nodes, aliases, node, resolver); }
  }

  lemma {:induction false} StateMeaning(nodes: seq<MirNode>, aliases: map<string, string>, node: MirNode, resolver: Resolver)
    requires node.op.UpdateState?
    ensures ConvertNode(node, resolver, DeclaredShapes(nodes)).Ok?
    ensures OpAction(RemapInputs(ConvertNode(node, resolver, DeclaredShapes(nodes)).value, Redirect(aliases)))
            == Store(Redirect(aliases)(node.op.stateId))
  {
    var f, converted := Redirect(aliases), ConvertNode(node, resolver, DeclaredShapes(nodes));
    var update := UpdateState(node.id, node.op.stateId, node.op.update);
    assert converted == Ok(Direct(update));
    assert RemapInputs(Direct(update), f) == Direct(UpdateState(node.id, f(node.op.stateId), f(node.op.update)));
  }

  /** The two environments after the first `k` nodes agree. */
  ghost predicate InStep<V>(graph: MirGraph, k: nat, resolver: Resolver, aliases: map<string, string>,
                            names: seq<string>, consts: seq<CompatOp>, ops: seq<CompatOp>, run: Semantics<V>)
    requires k <= |graph.nodes| == |ops|
  {
    Simulates(NodeIds(graph.nodes[..k]), Execute(consts + ops[..k], run), EvalGraph(graph, resolver, aliases, run, k), names, resolver, run)
  }

  /** After any number of nodes that carry over the environments agree. */
  lemma {:induction false} Simulation<V>(graph: MirGraph, k: nat, resolver: Resolver, aliases: map<string, string>, allowMissing: bool,
                                         names: seq<string>, consts: seq<CompatOp>, ops: seq<CompatOp>, run: Semantics<V>)
    requires k <= |graph.nodes| == |ops| && WellFormed(graph, k, resolver, aliases) && AllResolved(names, resolver)
    requires Emitted(graph.nodes, resolver, Redirect(aliases), allowMissing, names, consts, ops)
    ensures InStep(graph, k, resolver, aliases, names, consts, ops, run)
  {
    if k == 0 {
      ConstantsInStep(graph, resolver, aliases, allowMissing, names, consts, ops, run);
    } else {
      Simulation(graph, k - 1, resolver, aliases, allowMissing, names, consts, ops, run);
      StaysInStep(graph, k - 1, resolver, aliases, names, consts, ops, run);
    }
  }

  lemma {:induction false} ConstantsInStep<V>(graph: MirGraph, resolver: Resolver, aliases: map<string, string>, allowMissing: bool,
                                              names: seq<string>, consts: seq<CompatOp>, ops: seq<CompatOp>, run: Semantics<V>)
    requires |graph.nodes| == |ops| && AllResolved(names, resolver)
    requires Materialized(names, resolver, allowMissing) == Ok(consts)
    ensures InStep(graph, 0, resolver, aliases, names, consts, ops, run)
  {
    assert consts + ops[..0] == consts;
    ConstantsBindWeights(names, resolver, allowMissing, consts, run);
  }

  lemma {:induction false} StaysInStep<V>(graph: MirGraph, k: nat, resolver: Resolver, aliases: map<string, string>,
                                          names: seq<string>, consts: seq<CompatOp>, ops: seq<CompatOp>, run: Semantics<V>)
    requires k < |graph.nodes| == |ops| && Carries(graph, k, resolver, aliases)
    requires Converted(graph.nodes, resolver, DeclaredShapes(graph.nodes), Redirect(aliases), |graph.nodes|) == Ok(ops)
    requires SortedWanted(names, ops, NodeIds(graph.nodes), resolver)
    requires InStep(graph, k, resolver, aliases, names, consts, ops, run)
    ensures InStep(graph, k + 1, resolver, aliases, names, consts, ops, run)
  {
    var compat, env := Execute(consts + ops[..k], run), EvalGraph(graph, resolver, aliases, run, k);
    var v := run(OpAction(ops[k]), OpOperands(ops[k], compat, run));
    SameStep(graph, k, resolver, aliases, names, ops, compat, env, run);
    BothOneMore(graph, k, resolver, aliases, consts, ops, run, v);
    SimulatesOneMore(NodeIds(graph.nodes[..k]), compat, env, graph.nodes[k].id, v, names, resolver, run);
  }

  lemma {:induction false} BothOneMore<V>(graph: MirGraph, k: nat, resolver: Resolver, aliases: map<string, string>,
                                          consts: seq<CompatOp>, ops: seq<CompatOp>, run: Semantics<V>, v: V)
    requires k < |graph.nodes| == |ops| && OutputName(ops[k]) == graph.nodes[k].id
    requires v == run(OpAction(ops[k]), OpOperands(ops[k], Execute(consts + ops[..k], run), run))
    requires v == run(NodeAction(graph.nodes, aliases, graph.nodes[k], resolver),
                      NodeOperands(graph, k, resolver, aliases, EvalGraph(graph, resolver, aliases, run, k), run))
    ensures Execute(consts + ops[..k + 1], run) == Execute(consts + ops[..k], run)[graph.nodes[k].id := v]
    ensures EvalGraph(graph, resolver, aliases, run, k + 1) == EvalGraph(graph, resolver, aliases, run, k)[graph.nodes[k].id := v]
    ensures NodeIds(graph.nodes[..k + 1]) == NodeIds(graph.nodes[..k]) + {graph.nodes[k].id}
  {
    ExecuteOneMore(consts, ops, k + 1, run);
    EvalOneMore(graph, k, resolver, aliases, run);
    NodeIdsOneMore(graph.nodes, k + 1);
  }

  lemma {:induction false} EvalOneMore<V>(graph: MirGraph, k: nat, resolver: Resolver, aliases: map<string, string>, run: Semantics<V>)
    requires k < |graph.nodes|
    ensures var env := EvalGraph(graph, resolver, aliases, run, k);
            EvalGraph(graph, resolver, aliases, run, k + 1)
            == env[graph.nodes[k].id := run(NodeAction(graph.nodes, aliases, graph.nodes[k], resolver),
                                            NodeOperands(graph, k, resolver, aliases, env, run))]
  {
  }

  /** Run in environments that agree, a node and its operation give one value to one name. */
  lemma {:induction false} SameStep<V>(graph: MirGraph, k: nat, resolver: Resolver, aliases: map<string, string>, names: seq<string>,
                                       ops: seq<CompatOp>, compat: map<string, V>, env: map<string, V>, run: Semantics<V>)
    requires k < |graph.nodes| == |ops| && Carries(graph, k, resolver, aliases)
    requires Converted(graph.nodes, resolver, DeclaredShapes(graph.nodes), Redirect(aliases), |graph.nodes|) == Ok(ops)
    requires SortedWanted(names, ops, NodeIds(graph.nodes), resolver)
    requires Simulates(NodeIds(graph.nodes[..k]), compat, env, names, resolver, run)
    ensures OutputName(ops[k]) == graph.nodes[k].id
    ensures run(OpAction(ops[k]), OpOperands(ops[k], compat, run))
         == run(NodeAction(graph.nodes, aliases, graph.nodes[k], resolver), NodeOperands(graph, k, resolver, aliases, env, run))
  {
    SameAction(graph, k, resolver, aliases, ops);
    SameOperands(graph, k, resolver, aliases, names, ops, compat, env, run);
  }

  lemma {:induction false} ExecuteOneMore<V>(consts: seq<CompatOp>, ops: seq<CompatOp>, k: nat, run: Semantics<V>)
    requires 0 < k <= |ops|
    ensures var env := Execute(consts + ops[..k - 1], run);
            Execute(consts + ops[..k], run) == env[OutputName(ops[k - 1]) := run(OpAction(ops[k - 1]), OpOperands(ops[k - 1], env, run))]
  {
    var all := consts + ops[..k];
    assert all[..|all| - 1] == consts + ops[..k - 1] && all[|all| - 1] == ops[k - 1];
  }

  lemma {:induction false} NodeIdsOneMore(nodes: seq<MirNode>, k: nat)
    requires 0 < k <= |nodes|
    ensures NodeIds(nodes[..k]) == NodeIds(nodes[..k - 1]) + {nodes[k - 1].id}
  {
    assert nodes[..k] == nodes[..k - 1] + [nodes[k - 1]];
    assert nodes[k - 1] in nodes[..k];
  }

  /** For every graph and aliases the pass accepts, when every operation carries over, no node
      that is read is shadowed, and nodes come after the nodes they read, the emitted operations
      give each node its own value. */
  lemma {:induction false} MeaningPreserved<V>(graph: MirGraph, resolver: Resolver, aliases: map<string, string>, allowMissing: bool,
                                               names: seq<string>, consts: seq<CompatOp>, ops: seq<CompatOp>, run: Semantics<V>)
    requires Emitted(graph.nodes, resolver, Redirect(aliases), allowMissing, names, consts, ops)
    requires WellFormed(graph, |graph.nodes|, resolver, aliases)
    requires allowMissing ==> AllResolved(names, resolver)
    ensures var compat := Execute(consts + ops, run);
            var values := EvalGraph(graph, resolver, aliases, run, |graph.nodes|);
            && values.Keys == NodeIds(graph.nodes)
            && forall id | id in NodeIds(graph.nodes) :: id in compat && compat[id] == values[id]
  {
    if !allowMissing { ReportedIsLeast(names, resolver); }
    ConvertedOps(graph.nodes, resolver, DeclaredShapes(graph.nodes), Redirect(aliases), |graph.nodes|);
    Simulation(graph, |graph.nodes|, resolver, aliases, allowMissing, names, consts, ops, run);
    assert ops[..|graph.nodes|] == ops && graph.nodes[..|graph.nodes|] == graph.nodes;
  }

  // ----- definitions precede uses

  ghost predicate DefinedBefore(all: seq<CompatOp>, at: nat, name: string) {
    exists i: nat :: i < at && i < |all| && OutputName(all[i]) == name
  }

  /** An operand of an emitted operation is the output of an earlier one exactly if it is an
      earlier node or a wanted weight that is not left out. So with nodes after what they read,
      every operand is, unless it is neither a node nor a weight that resolves. */
  lemma {:induction false} DefinedBeforeUse(nodes: seq<MirNode>, resolver: Resolver, f: Renaming, allowMissing: bool,
                                            names: seq<string>, consts: seq<CompatOp>, ops: seq<CompatOp>, k: nat, t: string)
    requires Emitted(nodes, resolver, f, allowMissing, names, consts, ops)
    requires k < |nodes| == |ops| && t in Operands(ops[k])
    ensures DefinedBefore(consts + ops, |consts| + k, t) <==> t in NodeIds(nodes[..k]) || (t in names && !LeftOut(t, resolver))
    ensures (t in NodeIds(nodes) ==> t in NodeIds(nodes[..k])) ==>
            DefinedBefore(consts + ops, |consts| + k, t) || (t !in NodeIds(nodes) && resolver(t).None?)
  {
    var all := consts + ops;
    ConvertedOps(nodes, resolver, DeclaredShapes(nodes), f, |nodes|);
    EmittedConstants(names, resolver, allowMissing);
    if DefinedBefore(all, |consts| + k, t) {
      var i: nat :| i < |consts| + k && i < |all| && OutputName(all[i]) == t;
      if i < |consts| { assert consts[i] in consts; } else { assert nodes[..k][i - |consts|].id == t; }
    }
    if t in NodeIds(nodes[..k]) { NodeIsDefined(nodes, resolver, f, consts, ops, k, t); }
    if t in names && !LeftOut(t, resolver) { WeightIsDefined(names, resolver, allowMissing, consts, ops, k, t); }
    if t !in NodeIds(nodes) && resolver(t).Some? { OperandIsWanted(nodes, resolver, f, names, ops, k, t); }
  }

  lemma {:induction false} NodeIsDefined(nodes: seq<MirNode>, resolver: Resolver, f: Renaming,
                                         consts: seq<CompatOp>, ops: seq<CompatOp>, k: nat, t: string)
    requires Converted(nodes, resolver, DeclaredShapes(nodes), f, |nodes|) == Ok(ops)
    requires k <= |nodes| && t in NodeIds(nodes[..k])
    ensures DefinedBefore(consts + ops, |consts| + k, t)
  {
    ConvertedOps(nodes, resolver, DeclaredShapes(nodes), f, |nodes|);
    var j :| 0 <= j < k && nodes[..k][j].id == t;
    assert OutputName((consts + ops)[|consts| + j]) == t;
  }

  lemma {:induction false} WeightIsDefined(names: seq<string>, resolver: Resolver, allowMissing: bool,
                                           consts: seq<CompatOp>, ops: seq<CompatOp>, k: nat, t: string)
    requires Ascending(names) && Materialized(names, resolver, allowMissing) == Ok(consts)
    requires t in names && !LeftOut(t, resolver)
    ensures DefinedBefore(consts + ops, |consts| + k, t)
  {
    EmittedConstants(names, resolver, allowMissing);
    var c :| c in consts && c.name == t;
    var i :| 0 <= i < |consts| && consts[i] == c;
    assert OutputName((consts + ops)[i]) == t;
  }
}
