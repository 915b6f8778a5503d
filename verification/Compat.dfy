/** The emitted operations and the conversion of one node (`mir_to_compat.rs`, `coreml-proto`). */
module Compat {
  import opened Wrappers
  import opened ShapeOps
  import opened Bytes
  import opened Weights
  import opened Mir
  import opened ReshapeResolution
  import opened ReshapeReading

  /** `Direct` covers the operations carried over field by field. */
  datatype CompatOp =
    | Constant(name: string, data: seq<byte>, dtype: Dtype, shape: Shape)
    | InputPlaceholder(name: string, dtype: Dtype)
    | TypedIdentity(name: string, x: string, dtype: Dtype)
    | TypedReadState(name: string, stateId: string, shape: Shape, dtype: Dtype)
    | ConcreteReshape(name: string, x: string, target: seq<int>)
    | Unsupported(tag: string, name: string, inputs: seq<string>)
    | Direct(op: MirOp)

  /** `Panicked` stands for a run that the failing shape rule of this node aborts. */
  datatype BridgeError =
    | UnresolvedZeros(reshape: string)
    | UnresolvedWeight(path: string)
    | MissingInput(id: string)
    | MissingOutput(id: string)
    | Panicked(id: string)

  function OutputName(c: CompatOp): string {
    if c.Direct? then c.op.name else c.name
  }

  function RenameOutput(c: CompatOp, newName: string): CompatOp {
    match c
    case Constant(_, data, dtype, shape) => Constant(newName, data, dtype, shape)
    case InputPlaceholder(_, dtype) => InputPlaceholder(newName, dtype)
    case TypedIdentity(_, x, dtype) => TypedIdentity(newName, x, dtype)
    case TypedReadState(_, stateId, shape, dtype) => TypedReadState(newName, stateId, shape, dtype)
    case ConcreteReshape(_, x, target) => ConcreteReshape(newName, x, target)
    case Unsupported(tag, _, inputs) => Unsupported(tag, newName, inputs)
    case Direct(op) => Direct(op.(name := newName))
  }

  function OptionalName(n: Option<string>): seq<string> {
    match n case Some(s) => [s] case None => []
  }

  /** The names an operation refers to, in order. */
  function OperandNames(op: MirOp): seq<string> {
    match op
    case Const(_, _, _) => []
    case Linear(_, x, weight, bias) => [x, weight] + OptionalName(bias)
    case LayerNorm(_, x, weight, bias) => [x, weight] + OptionalName(bias)
    case Unary(_, _, x) => [x]
    case Binary(_, _, x, y) => [x, y]
    case Where(_, condition, x, y) => [condition, x, y]
    case Select(_, condition, x, y) => [condition, x, y]
    case MatMul(_, x, y, _) => [x, y]
    case Attention(_, query, key, value, mask) => [query, key, value] + OptionalName(mask)
    case Gather(_, x, indices, _) => [x, indices]
    case Concat(_, values, _) => values
    case Stack(_, values, _) => values
    case Split(_, x, _, _) => [x]
    case SliceByIndex(_, x, _, _, _, _, _, _) => [x]
    case Reduce(_, _, x, _, _) => [x]
    case Reshape(_, x, _) => [x]
    case Transpose(_, x, _) => [x]
    case Tile(_, x, _) => [x]
    case ExpandDims(_, x, _) => [x]
    case Squeeze(_, x, _) => [x]
    case Pad(_, x, _) => [x]
    case Topk(_, x, _, _) => [x]
    case Flatten2d(_, x, _) => [x]
    case Conv(_, x, kernel, _, _, _) => [x, kernel]
    case ConvTranspose(_, x, kernel, _) => [x, kernel]
    case Fill(_, _) => []
    case ReadState(_, _, _, _) => []
    case UpdateState(_, _, update) => [update]
    case Identity(_, x) => [x]
    case Other(_, _, inputs, _) => inputs
  }

  function Operands(c: CompatOp): seq<string> {
    match c
    case Constant(_, _, _, _) => []
    case InputPlaceholder(_, _) => []
    case TypedIdentity(_, x, _) => [x]
    case TypedReadState(_, _, _, _) => []
    case ConcreteReshape(_, x, _) => [x]
    case Unsupported(_, _, inputs) => inputs
    case Direct(op) => OperandNames(op)
  }

  /** All reference names: besides the operands, the state of a state operation and the shape
      tensor of a fill. */
  function InputNames(c: CompatOp): seq<string> {
    match c
    case TypedReadState(_, stateId, _, _) => [stateId]
    case Direct(Fill(name, _)) => [name + "_shape"]
    case Direct(UpdateState(_, stateId, update)) => [stateId, update]
    case _ => Operands(c)
  }

  type Renaming = string -> string

  function MapOption(n: Option<string>, f: Renaming): Option<string> {
    match n case Some(s) => Some(f(s)) case None => None
  }

  function MapSeq(names: seq<string>, f: Renaming): (r: seq<string>)
    ensures |r| == |names|
  {
    seq(|names|, i requires 0 <= i < |names| => f(names[i]))
  }

  function MapNames(op: MirOp, f: Renaming): MirOp {
    match op
    case Const(_, _, _) => op
    case Linear(name, x, weight, bias) => Linear(name, f(x), f(weight), MapOption(bias, f))
    case LayerNorm(name, x, weight, bias) => LayerNorm(name, f(x), f(weight), MapOption(bias, f))
    case Unary(kind, name, x) => Unary(kind, name, f(x))
    case Binary(tag, name, x, y) => Binary(tag, name, f(x), f(y))
    case Where(name, condition, x, y) => Where(name, f(condition), f(x), f(y))
    case Select(name, condition, x, y) => Select(name, f(condition), f(x), f(y))
    case MatMul(name, x, y, transposeY) => MatMul(name, f(x), f(y), transposeY)
    case Attention(name, query, key, value, mask) => Attention(name, f(query), f(key), f(value), MapOption(mask, f))
    case Gather(name, x, indices, axis) => Gather(name, f(x), f(indices), axis)
    case Concat(name, values, axis) => Concat(name, MapSeq(values, f), axis)
    case Stack(name, values, axis) => Stack(name, MapSeq(values, f), axis)
    case Split(name, x, axis, numSplits) => Split(name, f(x), axis, numSplits)
    case SliceByIndex(name, x, begin, end, stride, beginMask, endMask, squeezeMask) =>
      SliceByIndex(name, f(x), begin, end, stride, beginMask, endMask, squeezeMask)
    case Reduce(tag, name, x, axes, keepDims) => Reduce(tag, name, f(x), axes, keepDims)
    case Reshape(name, x, target) => Reshape(name, f(x), target)
    case Transpose(name, x, perm) => Transpose(name, f(x), perm)
    case Tile(name, x, reps) => Tile(name, f(x), reps)
    case ExpandDims(name, x, axes) => ExpandDims(name, f(x), axes)
    case Squeeze(name, x, axes) => Squeeze(name, f(x), axes)
    case Pad(name, x, padAmounts) => Pad(name, f(x), padAmounts)
    case Topk(name, x, k, axis) => Topk(name, f(x), k, axis)
    case Flatten2d(name, x, axis) => Flatten2d(name, f(x), axis)
    case Conv(name, x, kernel, strides, padAmounts, dilations) => Conv(name, f(x), f(kernel), strides, padAmounts, dilations)
    case ConvTranspose(name, x, kernel, outputShape) => ConvTranspose(name, f(x), f(kernel), outputShape)
    case Fill(_, _) => op
    case ReadState(_, _, _, _) => op
    case UpdateState(name, stateId, update) => UpdateState(name, f(stateId), f(update))
    case Identity(name, x) => Identity(name, f(x))
    case Other(tag, name, inputs, attributes) => Other(tag, name, MapSeq(inputs, f), attributes)
  }

  /** A read state keeps its state name, an update has it renamed. */
  function RemapInputs(c: CompatOp, f: Renaming): CompatOp {
    match c
    case Constant(_, _, _, _) => c
    case InputPlaceholder(_, _) => c
    case TypedIdentity(name, x, dtype) => TypedIdentity(name, f(x), dtype)
    case TypedReadState(_, _, _, _) => c
    case ConcreteReshape(name, x, target) => ConcreteReshape(name, f(x), target)
    case Unsupported(tag, name, inputs) => Unsupported(tag, name, MapSeq(inputs, f))
    case Direct(op) => Direct(MapNames(op, f))
  }

  lemma {:induction false} RemapMapsOperands(c: CompatOp, f: Renaming)
    ensures Operands(RemapInputs(c, f)) == MapSeq(Operands(c), f)
    ensures OutputName(RemapInputs(c, f)) == OutputName(c)
  {
    if c.Direct? { MapNamesMapsOperands(c.op, f); }
  }

  lemma {:induction false} MapNamesMapsOperands(op: MirOp, f: Renaming)
    ensures OperandNames(MapNames(op, f)) == MapSeq(OperandNames(op), f)
    ensures MapNames(op, f).name == op.name
  {
    match op
    case Linear(_, x, weight, bias) => MapsWeighted([x, weight], bias, f);
    case LayerNorm(_, x, weight, bias) => MapsWeighted([x, weight], bias, f);
    case Attention(_, query, key, value, mask) => MapsWeighted([query, key, value], mask, f);
    case Concat(_, _, _) =>
    case Stack(_, _, _) =>
    case Other(_, _, _, _) =>
    case _ => MapsFixedOperands(op, f);
  }

  lemma {:induction false} MapsWeighted(names: seq<string>, optional: Option<string>, f: Renaming)
    ensures MapSeq(names, f) + OptionalName(MapOption(optional, f)) == MapSeq(names + OptionalName(optional), f)
  {
  }

  ghost predicate ResizesAxes(op: MirOp) { op.Split? || op.SliceByIndex? || op.Reduce? || op.Pad? || op.Topk? || op.Tile? }

  ghost predicate OneOperand(op: MirOp) {
    ResizesAxes(op) || op.Unary? || op.Reshape? || op.Transpose? || op.ExpandDims? || op.Squeeze? || op.Flatten2d?
    || op.Identity? || op.UpdateState?
  }

  lemma {:induction false} MapsFixedOperands(op: MirOp, f: Renaming)
    requires !op.Linear? && !op.LayerNorm? && !op.Attention? && !op.Concat? && !op.Stack? && !op.Other?
    ensures OperandNames(MapNames(op, f)) == MapSeq(OperandNames(op), f)
    ensures MapNames(op, f).name == op.name
  {
    if OneOperand(op) { MapsOneOperand(op, f); }
  }

  lemma {:induction false} MapsOneOperand(op: MirOp, f: Renaming)
    requires OneOperand(op)
    ensures OperandNames(MapNames(op, f)) == MapSeq(OperandNames(op), f)
    ensures MapNames(op, f).name == op.name
  {
    if ResizesAxes(op) {
      MapsResizing(op, f);
    } else {
      assert |OperandNames(op)| == 1 == |OperandNames(MapNames(op, f))|;
      assert OperandNames(MapNames(op, f))[0] == f(OperandNames(op)[0]);
    }
  }

  lemma {:induction false} MapsResizing(op: MirOp, f: Renaming)
    requires ResizesAxes(op)
    ensures OperandNames(MapNames(op, f)) == MapSeq(OperandNames(op), f)
    ensures MapNames(op, f).name == op.name
  {
    assert OperandNames(op) == [op.x] && OperandNames(MapNames(op, f)) == [f(op.x)];
  }

  // ----- conversion

  function ElementSize(dtype: Dtype): nat {
    match dtype
    case Fp16 => 2
    case Fp32 => 4
    case Int32 => 4
    case UInt16 => 2
    case UInt8 => 1
    case Int4 => 1
    case UInt4 => 1
    case E4M3 => 1
    case E5M2 => 1
  }

  function ZeroBytes(n: nat): seq<byte> { seq(n, _ => 0) }

  /** A constant's tensor; zeros of the node's shape when nothing answers to its path. */
  function ConvertConst(op: MirOp, nodeShape: Shape, resolver: Resolver): CompatOp
    requires op.Const?
  {
    match resolver(op.valuePath)
    case Some(wd) =>
      Constant(op.name, wd.data, op.dtype, if nodeShape == [] && wd.shape != [] then wd.shape else nodeShape)
    case None => Constant(op.name, ZeroBytes(Product(nodeShape) * ElementSize(op.dtype)), op.dtype, nodeShape)
  }

  /** Zeros filled from the node's own shape, position by position. */
  function FromNodeShape(target: Shape, nodeShape: Shape): Shape {
    seq(|target|, i requires 0 <= i < |target| => if target[i] == 0 then GetOr(nodeShape, i, 0) else target[i])
  }

  /** A node's shape stands in for the whole target if it has its rank and no zeros. */
  predicate UsableShape(nodeShape: Shape, target: Shape) {
    nodeShape != [] && |nodeShape| == |target| && 0 !in nodeShape
  }

  function BatchSize(input: Shape): Option<nat> { if input == [] then None else Some(input[0]) }

  /** The target a reshape is given: as written if concrete, else the node's shape, else the
      zeros resolved from the input's shape, else what the node's shape still says. */
  function ReshapeTarget(op: MirOp, nodeShape: Shape, shapes: map<string, Shape>): Shape
    requires op.Reshape?
  {
    if 0 !in op.target then op.target
    else if UsableShape(nodeShape, op.target) then nodeShape
    else if op.x in shapes then Resolved(op.target, shapes[op.x], BatchSize(shapes[op.x]))
    else if nodeShape != [] && |nodeShape| == |op.target| then FromNodeShape(op.target, nodeShape)
    else op.target
  }

  function ConvertReshape(op: MirOp, nodeShape: Shape, shapes: map<string, Shape>): Result<CompatOp, BridgeError>
    requires op.Reshape?
  {
    var target := AsI32s(ReshapeTarget(op, nodeShape, shapes));
    if 0 in target then Err(UnresolvedZeros(op.name)) else Ok(ConcreteReshape(op.name, op.x, target))
  }

  function ConvertOp(op: MirOp, nodeShape: Shape, resolver: Resolver, shapes: map<string, Shape>): Result<CompatOp, BridgeError> {
    match op
    case Const(_, _, _) => Ok(ConvertConst(op, nodeShape, resolver))
    case Reshape(_, _, _) => ConvertReshape(op, nodeShape, shapes)
    case Identity(name, x) => Ok(TypedIdentity(name, x, Fp16))
    case ReadState(name, stateId, target, dtype) => Ok(TypedReadState(name, stateId, target, dtype))
    case Flatten2d(name, x, _) => Ok(Unsupported("flatten2d", name, [x]))
    case ConvTranspose(name, x, kernel, _) => Ok(Unsupported("conv_transpose", name, [x, kernel]))
    case Unary(Listed(tag, _), name, x) => Ok(Direct(Unary(Listed(tag, ""), name, x)))
    case Unary(Unlisted(tag, _), name, x) => Ok(Unsupported(tag, name, [x]))
    case Reduce(tag, name, x, _, _) => Ok(if tag in LISTED_REDUCTIONS then Direct(op) else Unsupported("reduce_" + tag, name, [x]))
    case Other(tag, name, inputs, _) => Ok(Unsupported(tag, name, inputs))
    case _ => Ok(Direct(op))
  }

  /** Convert, name the result by the node's id, and take the dtype of identities and states
      from the node; an identity of the input marker becomes a placeholder. */
  function ConvertNode(node: MirNode, resolver: Resolver, shapes: map<string, Shape>): Result<CompatOp, BridgeError> {
    match ConvertOp(node.op, node.shape, resolver, shapes)
    case Err(e) => Err(e)
    case Ok(c) =>
      match RenameOutput(c, node.id)
      case TypedReadState(name, stateId, shape, _) => Ok(TypedReadState(name, stateId, shape, node.dtype))
      case TypedIdentity(name, x, _) =>
        Ok(if x == PLACEHOLDER then InputPlaceholder(name, node.dtype) else TypedIdentity(name, x, node.dtype))
      case renamed => Ok(renamed)
  }

  lemma {:induction false} ConvertedName(node: MirNode, resolver: Resolver, shapes: map<string, Shape>)
    ensures ConvertNode(node, resolver, shapes).Ok? ==> OutputName(ConvertNode(node, resolver, shapes).value) == node.id
    ensures ConvertNode(node, resolver, shapes).Ok? ==>
      (ConvertNode(node, resolver, shapes).value.Constant? <==> node.op.Const?)
  {
  }

  /** A reshape is refused exactly when some dimension is a multiple of 2^32 after every
      strategy, and its target is emitted unchanged exactly below 2^31. */
  lemma {:induction false} ReshapeRefused(op: MirOp, nodeShape: Shape, shapes: map<string, Shape>)
    requires op.Reshape?
    ensures var t := ReshapeTarget(op, nodeShape, shapes);
      && (ConvertReshape(op, nodeShape, shapes).Err? <==> exists i :: 0 <= i < |t| && t[i] % 0x1_0000_0000 == 0)
      && (ConvertReshape(op, nodeShape, shapes).Ok? ==>
            (ConvertReshape(op, nodeShape, shapes).value.target == t <==> forall i | 0 <= i < |t| :: t[i] < 0x8000_0000))
  {
    var t := ReshapeTarget(op, nodeShape, shapes);
    CastIsExact(t);
    forall i | 0 <= i < |t| ensures AsI32s(t)[i] == 0 <==> t[i] % 0x1_0000_0000 == 0 {}
    if i :| 0 <= i < |t| && t[i] % 0x1_0000_0000 == 0 { assert AsI32s(t)[i] in AsI32s(t); }
  }

  /** The strategies keep the target's rank and non-zero dimensions exactly unless the node's
      shape stands in for it and differs there. */
  lemma {:induction false} StrategyKeepsTarget(op: MirOp, nodeShape: Shape, shapes: map<string, Shape>)
    requires op.Reshape?
    ensures Fills(ReshapeTarget(op, nodeShape, shapes), op.target) <==>
      ZeroFree(op.target) || !UsableShape(nodeShape, op.target) || Fills(nodeShape, op.target)
  {
    if op.x in shapes { ResolutionKeepsTarget(op.target, shapes[op.x], BatchSize(shapes[op.x])); }
  }

  /** When the strategies give the operand's element count. */
  lemma {:induction false} StrategyKeepsCount(op: MirOp, nodeShape: Shape, shapes: map<string, Shape>)
    requires op.Reshape? && op.x in shapes && Positive(shapes[op.x])
    ensures var input := shapes[op.x];
      Product(ReshapeTarget(op, nodeShape, shapes)) == Product(input) <==>
        if ZeroFree(op.target) then Product(op.target) == Product(input)
        else if UsableShape(nodeShape, op.target) then Product(nodeShape) == Product(input)
        else Completable(op.target, input, BatchSize(input))
  {
    if !ZeroFree(op.target) { ResolutionConservesElements(op.target, shapes[op.x], BatchSize(shapes[op.x])); }
  }

  /** A node's shape overrules a dimension that the target states. */
  lemma {:induction false} NodeShapeCounterexample(shapes: map<string, Shape>)
    ensures ReshapeTarget(Reshape("r", "x", [0, 6]), [5, 7], shapes) == [5, 7]
    ensures !Fills([5, 7], [0, 6])
  {
    assert [0, 6][0] == 0 && [0, 6][1] == 6 && [5, 7][1] == 7;
  }

  /** A constant nobody can resolve becomes zeros; no option makes it an error. */
  lemma {:induction false} MissingConstIsZeroFilled(node: MirNode, resolver: Resolver, shapes: map<string, Shape>)
    requires node.op.Const? && resolver(node.op.valuePath).None?
    ensures ConvertNode(node, resolver, shapes)
         == Ok(Constant(node.id, ZeroBytes(Product(node.shape) * ElementSize(node.op.dtype)), node.op.dtype, node.shape))
  {
  }

  /** Flattening along different axes is emitted as one and the same operation. */
  lemma {:induction false} FlattenLosesAxis(id: string, x: string, a: nat, b: nat, shape: Shape, dtype: Dtype,
                                            resolver: Resolver, shapes: map<string, Shape>)
    ensures ConvertNode(MirNode(id, Flatten2d("f", x, a), shape, dtype), resolver, shapes)
         == ConvertNode(MirNode(id, Flatten2d("f", x, b), shape, dtype), resolver, shapes)
  {
  }

  // ----- with names, conditions and sizes written out

  /** What becomes of a target with zeros: a declared shape of its rank without zeros takes its
      place; else it is resolved from the operand's declared shape, whose first dimension is the
      batch size; else a declared shape of its rank fills its zeros. The rank never changes. */
  lemma {:induction false} StrategyBranches(op: MirOp, nodeShape: Shape, shapes: map<string, Shape>)
    requires op.Reshape?
    ensures var t := ReshapeTarget(op, nodeShape, shapes);
      && |t| == |op.target|
      && (0 !in op.target ==> t == op.target)
      && (0 in op.target && |nodeShape| == |op.target| && 0 !in nodeShape ==> t == nodeShape)
      && (0 in op.target && (|nodeShape| != |op.target| || 0 in nodeShape) ==>
            if op.x in shapes then
              var x := shapes[op.x];
              t == Resolved(op.target, x, if |x| > 0 then Some(x[0]) else None)
            else
              forall i | 0 <= i < |op.target| ::
                t[i] == if op.target[i] == 0 && |nodeShape| == |op.target| then nodeShape[i] else op.target[i])
  {
  }

  /** Flattenings, transposed convolutions and the reductions other than mean, sum, maximum, minimum
      and product are emitted as unsupported operations under these tags. */
  lemma {:induction false} UnsupportedTags(op: MirOp, nodeShape: Shape, resolver: Resolver, shapes: map<string, Shape>)
    ensures op.Flatten2d? ==> ConvertOp(op, nodeShape, resolver, shapes) == Ok(Unsupported("flatten2d", op.name, [op.x]))
    ensures op.ConvTranspose? ==>
            ConvertOp(op, nodeShape, resolver, shapes) == Ok(Unsupported("conv_transpose", op.name, [op.x, op.kernel]))
    ensures op.Reduce? ==>
      var listed := op.tag == "mean" || op.tag == "sum" || op.tag == "max" || op.tag == "min" || op.tag == "prod";
      ConvertOp(op, nodeShape, resolver, shapes) == Ok(if listed then Direct(op) else Unsupported("reduce_" + op.tag, op.name, [op.x]))
  {
  }

  /** Four bytes for single precision and 32-bit integers, two for half precision and 16-bit ones,
      and one for everything else. */
  lemma {:induction false} ElementSizes(dtype: Dtype)
    ensures ElementSize(dtype) == 4 <==> dtype == Fp32 || dtype == Int32
    ensures ElementSize(dtype) == 2 <==> dtype == Fp16 || dtype == UInt16
    ensures ElementSize(dtype) in [1, 2, 4]
  {
  }

  /** What a constant carries: the resolved bytes, or as many zeros as its shape and dtype take; the
      declared dtype; and the node's shape, or the tensor's if the node has none. */
  lemma {:induction false} ConstantCarries(node: MirNode, resolver: Resolver, shapes: map<string, Shape>)
    requires node.op.Const?
    ensures var (converted, found) := (ConvertNode(node, resolver, shapes), resolver(node.op.valuePath));
      && converted.Ok? && converted.value.Constant? && converted.value.name == node.id && converted.value.dtype == node.op.dtype
      && (node.shape != [] || found.None? ==> converted.value.shape == node.shape)
      && (node.shape == [] && found.Some? ==> converted.value.shape == found.value.shape)
      && (found.Some? ==> converted.value.data == found.value.data)
      && (found.None? ==> |converted.value.data| == Product(node.shape) * ElementSize(node.op.dtype)
                          && forall b | b in converted.value.data :: b == 0)
  {
  }
}
