/** Forward shape rules, once total and once reporting failures (`shape_inference.rs`). */
module ShapeInference {
  import opened Wrappers
  import opened Arithmetic
  import opened Strings
  import opened ShapeOps
  import opened Mir

  type ShapeMap = map<string, Shape>

  function Lookup(shapes: ShapeMap, id: string): Option<Shape> {
    if id in shapes then Some(shapes[id]) else None
  }

  /** The empty shape stands for an unknown one. */
  function OrUnknown(r: Option<Shape>): Shape {
    match r case Some(s) => s case None => []
  }

  function Known(shapes: ShapeMap, id: string): Shape { OrUnknown(Lookup(shapes, id)) }

  function BoolAt(mask: seq<bool>, i: nat): bool { i < |mask| && mask[i] }

  function Minus(a: nat, b: nat): nat { if a > b then a - b else 0 }

  /** A missing shape of a graph input is guessed from its name. */
  function InputShapeExplicit(name: string, shape: Shape, maxSeqLen: nat, hint: Option<Shape>): (r: Shape)
    ensures r != []
    ensures shape != [] ==> r == shape
    ensures shape == [] && hint.Some? && hint.value != [] ==> r == hint.value
  {
    if shape != [] then shape
    else if hint.Some? && hint.value != [] then hint.value
    else if Contains(name, "input_ids") then [1, maxSeqLen]
    else [1]
  }

  // ----- rules that build a dimension list

  function GatherShape(x: Shape, indices: Shape, axis: int): Shape {
    if 0 <= axis < |x| then x[..axis] + indices + x[axis + 1..] else x
  }

  method BuildGatherShape(x: Shape, indices: Shape, axis: int) returns (out: Shape)
    ensures out == GatherShape(x, indices, axis)
  {
    out := [];
    for i := 0 to |x|
      invariant out == if 0 <= axis < i then x[..axis] + indices + x[axis + 1..i] else x[..i]
    {
      if i == axis {
        out := out + indices;
      } else {
        out := out + [x[i]];
      }
    }
  }

  /** Operands of unknown shape, and those without this axis, count for nothing. */
  function AxisTotal(shapes: seq<Option<Shape>>, axis: nat): nat {
    if shapes == [] then 0
    else AxisTotal(shapes[..|shapes| - 1], axis) +
         match shapes[|shapes| - 1] case Some(s) => GetOr(s, axis, 0) case None => 0
  }

  function ConcatShape(first: Shape, shapes: seq<Option<Shape>>, axis: nat): Shape {
    if axis < |first| then first[axis := AxisTotal(shapes, axis)] else first
  }

  method BuildConcatShape(first: Shape, shapes: seq<Option<Shape>>, axis: nat) returns (out: Shape)
    ensures out == ConcatShape(first, shapes, axis)
  {
    out := first;
    if axis < |out| {
      var totalDim := 0;
      for i := 0 to |shapes|
        invariant totalDim == AxisTotal(shapes[..i], axis)
      {
        match shapes[i] {
          case Some(s) => if axis < |s| { totalDim := totalDim + s[axis]; }
          case None =>
        }
        assert shapes[..i + 1][..i] == shapes[..i];
      }
      assert shapes[..|shapes|] == shapes;
      out := out[axis := totalDim];
    }
  }

  function StackShape(first: Shape, axis: nat, count: nat): Shape { InsertAt(first, axis, count) }

  function SplitShape(x: Shape, axis: nat, numSplits: nat): Shape {
    if axis < |x| && numSplits > 0 then x[axis := x[axis] / numSplits] else x
  }

  function TopkShape(x: Shape, k: nat, axis: int): Shape {
    var at := if axis >= 0 then axis else |x| + axis;
    if 0 <= at < |x| then x[at := k] else x
  }

  function Flatten2dShape(x: Shape, axis: nat): Shape
    requires axis <= |x|
  {
    x[..axis] + [Product(x[axis..])]
  }

  function SliceBegin(op: MirOp, i: nat): nat
    requires op.SliceByIndex? && i < |op.begin|
  {
    if BoolAt(op.beginMask, i) || op.begin[i] < 0 then 0 else op.begin[i]
  }

  function SliceEnd(x: Shape, op: MirOp, i: nat): nat
    requires op.SliceByIndex?
    requires i < |op.end| || BoolAt(op.endMask, i)
  {
    if BoolAt(op.endMask, i) then GetOr(x, i, 0)
    else if op.end[i] < 0 then (if GetOr(x, i, 0) + op.end[i] < 0 then 0 else GetOr(x, i, 0) + op.end[i])
    else op.end[i]
  }

  function SliceDim(x: Shape, op: MirOp, i: nat): nat
    requires op.SliceByIndex? && i < |op.begin|
    requires i < |op.end| || BoolAt(op.endMask, i)
  {
    Minus(SliceEnd(x, op, i), SliceBegin(op, i))
  }

  /** The dimensions whose mask entry is not set. */
  function NotSqueezed(s: Shape, mask: seq<bool>): Shape {
    if s == [] then []
    else NotSqueezed(s[..|s| - 1], mask) + if BoolAt(mask, |s| - 1) then [] else [s[|s| - 1]]
  }

  /** The first index a slice selects: a negative begin counts from the end. */
  ghost function FirstIndex(x: Shape, op: MirOp, i: nat): nat
    requires op.SliceByIndex? && i < |op.begin|
  {
    if BoolAt(op.beginMask, i) then 0
    else if op.begin[i] >= 0 then op.begin[i]
    else if GetOr(x, i, 0) + op.begin[i] < 0 then 0
    else GetOr(x, i, 0) + op.begin[i]
  }

  ghost predicate Selects(p: nat, first: nat, end: nat, stride: nat)
    requires stride > 0
  {
    first <= p < end && (p - first) % stride == 0
  }

  /** The indices of a dimension of `dim` that a slice with this stride selects. */
  ghost function SelectedIndices(dim: nat, first: nat, end: nat, stride: nat): set<nat>
    requires stride > 0
  {
    set p: nat | p < dim && Selects(p, first, end, stride)
  }

  lemma {:induction false} SliceDimCounts(x: Shape, op: MirOp, i: nat, stride: nat)
    requires op.SliceByIndex? && i < |op.begin| && (i < |op.end| || BoolAt(op.endMask, i))
    requires stride > 0
    ensures var (first, begin, end) := (FirstIndex(x, op, i), SliceBegin(op, i), SliceEnd(x, op, i));
            SliceDim(x, op, i) == |SelectedIndices(GetOr(x, i, 0), first, end, stride)|
            <==> end <= begin || (first == begin && end <= GetOr(x, i, 0) && (stride == 1 || end == begin + 1))
  {
    SelectionFills(GetOr(x, i, 0), FirstIndex(x, op, i), SliceBegin(op, i), SliceEnd(x, op, i), stride);
  }

  lemma {:induction false} SelectionFills(dim: nat, first: nat, begin: nat, end: nat, stride: nat)
    requires stride > 0 && begin <= first && (begin == first || begin == 0)
    ensures Minus(end, begin) == |SelectedIndices(dim, first, end, stride)|
            <==> end <= begin || (first == begin && end <= dim && (stride == 1 || end == begin + 1))
  {
    var selected := SelectedIndices(dim, first, end, stride);
    if end <= begin {
      assert selected == {};
    } else {
      var all := Range(begin, end);
      assert selected <= all;
      SameCardSame(selected, all);
      SelectsAll(dim, first, begin, end, stride);
    }
  }

  lemma {:induction false} SelectsAll(dim: nat, first: nat, begin: nat, end: nat, stride: nat)
    requires stride > 0 && begin <= first && begin < end
    ensures SelectedIndices(dim, first, end, stride) == Range(begin, end)
            <==> first == begin && end <= dim && (stride == 1 || end == begin + 1)
  {
    var selected, all := SelectedIndices(dim, first, end, stride), Range(begin, end);
    assert begin in all && end - 1 in all;
    FirstTwo(begin, end, stride);
    assert end > begin + 1 ==> begin + 1 in all;
    assert selected == all ==> begin in selected && end - 1 in selected;
    if first == begin && end <= dim && (stride == 1 || end == begin + 1) {
      assert forall p: nat :: p in selected <==> p in all;
      assert selected == all;
    }
  }

  lemma {:induction false} FirstTwo(first: nat, end: nat, stride: nat)
    requires stride > 0 && first < end
    ensures Selects(first, first, end, stride)
    ensures end > first + 1 ==> (Selects(first + 1, first, end, stride) <==> stride == 1)
    ensures stride == 1 ==> forall p: nat | first <= p < end :: Selects(p, first, end, stride)
  {
    DivModUnique(0, stride, 0, 0);
    if stride > 1 { DivModUnique(1, stride, 0, 1); }
  }

  predicate SliceInRange(op: MirOp)
    requires op.SliceByIndex?
  {
    forall i | 0 <= i < |op.begin| :: i < |op.end| || BoolAt(op.endMask, i)
  }

  function SliceShape(x: Shape, op: MirOp): Shape
    requires op.SliceByIndex? && SliceInRange(op)
  {
    var sliced := seq(|op.begin|, i requires 0 <= i < |op.begin| => SliceDim(x, op, i));
    if op.squeezeMask != [] then NotSqueezed(sliced, op.squeezeMask) else sliced
  }

  /** Rows of the left operand by columns of the right one, below the broadcast batch. */
  function MatMulShape(x: Shape, y: Shape): Shape {
    if |x| >= 2 && |y| >= 2 then
      var batchX, batchY := x[..|x| - 2], y[..|y| - 2];
      var batch := if batchX == [] && batchY == [] then [] else OrElse(Broadcast(batchX, batchY), batchX);
      batch + [x[|x| - 2], y[|y| - 1]]
    else x
  }

  function OrElse(r: Option<Shape>, default: Shape): Shape {
    match r case Some(s) => s case None => default
  }

  // ----- convolution

  function ConvPad(pads: seq<nat>, rank: nat, i: nat): nat {
    if |pads| >= 2 * rank && 2 * i + 1 < |pads| then pads[2 * i] + pads[2 * i + 1] else GetOr(pads, 2 * i, 0)
  }

  function EffectiveKernel(weight: Shape, dilations: seq<nat>, i: nat): nat {
    Max(GetOr(dilations, i, 1), 1) * Minus(GetOr(weight, 2 + i, 1), 1) + 1
  }

  function SpatialDim(input: Shape, i: nat): nat { GetOr(input, 2 + i, 1) }

  function ConvDim(input: Shape, weight: Shape, strides: seq<nat>, pads: seq<nat>, dilations: seq<nat>, i: nat): nat {
    if SpatialDim(input, i) == 0 then 0
    else Minus(SpatialDim(input, i) + ConvPad(pads, Max(|strides|, 1), i), EffectiveKernel(weight, dilations, i))
         / Max(GetOr(strides, i, 1), 1) + 1
  }

  function ConvShape(input: Shape, weight: Shape, strides: seq<nat>, pads: seq<nat>, dilations: seq<nat>): Shape {
    (if input == [] then [] else [input[0]]) + [GetOr(weight, 0, 0)]
    + seq(Max(|strides|, 1), i requires 0 <= i => ConvDim(input, weight, strides, pads, dilations, i))
  }

  method BuildConvShape(input: Shape, weight: Shape, strides: seq<nat>, pads: seq<nat>, dilations: seq<nat>)
      returns (out: Shape)
    ensures out == ConvShape(input, weight, strides, pads, dilations)
  {
    var cOut := GetOr(weight, 0, 0);
    var outSpatial := BuildSpatial(input, weight, strides, pads, dilations);
    out := [];
    if input != [] {
      out := out + [input[0]];
    }
    out := out + [cOut];
    out := out + outSpatial;
  }

  method BuildSpatial(input: Shape, weight: Shape, strides: seq<nat>, pads: seq<nat>, dilations: seq<nat>)
      returns (outSpatial: Shape)
    ensures |outSpatial| == Max(|strides|, 1)
    ensures forall j :: 0 <= j < |outSpatial| ==> outSpatial[j] == ConvDim(input, weight, strides, pads, dilations, j)
  {
    var spatialDims: Shape := if |input| > 2 then input[2..] else [];
    var nSpatial := Max(|strides|, 1);
    outSpatial := [];
    for i := 0 to nSpatial
      invariant |outSpatial| == i
      invariant forall j :: 0 <= j < i ==> outSpatial[j] == ConvDim(input, weight, strides, pads, dilations, j)
    {
      var inputDim := GetOr(spatialDims, i, 1);
      var stride := Max(GetOr(strides, i, 1), 1);
      var dilation := Max(GetOr(dilations, i, 1), 1);
      var kernelSize := if |weight| > 2 + i then weight[2 + i] else 1;
      var padTotal := if |pads| >= 2 * nSpatial then pads[2 * i] + pads[2 * i + 1]
                      else if |pads| > 2 * i then pads[2 * i] else 0;
      var effectiveKernel := dilation * Minus(kernelSize, 1) + 1;
      assert inputDim == SpatialDim(input, i) && stride == Max(GetOr(strides, i, 1), 1);
      assert padTotal == ConvPad(pads, nSpatial, i) && effectiveKernel == EffectiveKernel(weight, dilations, i);
      var outDim := if inputDim == 0 then 0 else Minus(inputDim + padTotal, effectiveKernel) / stride + 1;
      assert outDim == ConvDim(input, weight, strides, pads, dilations, i);
      outSpatial := outSpatial + [outDim];
    }
  }

  /** The windows of a convolution along one dimension: start positions from which the
      effective kernel fits into the padded input. */
  ghost function Windows(padded: nat, kernel: nat, stride: nat): set<nat> {
    set p: nat | p <= padded && WindowFits(p, padded, kernel, stride)
  }

  ghost predicate WindowFits(p: nat, padded: nat, kernel: nat, stride: nat) { p * stride + kernel <= padded }

  lemma {:induction false} WindowFitsUpTo(p: nat, padded: nat, kernel: nat, stride: nat, q: nat, r: nat)
    requires stride > r && padded == kernel + q * stride + r
    ensures WindowFits(p, padded, kernel, stride) <==> p <= q
    ensures q <= padded
  {
    MulMonotone(q, q, 1, stride);
    if p <= q { MulMonotone(p, q, stride, stride); } else { MulLess(q, p, stride); }
  }

  lemma {:induction false} WindowCount(padded: nat, kernel: nat, stride: nat)
    requires stride > 0
    ensures |Windows(padded, kernel, stride)| == if kernel <= padded then (padded - kernel) / stride + 1 else 0
  {
    var w := Windows(padded, kernel, stride);
    if kernel <= padded {
      var q, r := Quotient(padded - kernel, stride);
      forall p: nat ensures p in w <==> p in Range(0, q + 1) { WindowFitsUpTo(p, padded, kernel, stride, q, r); }
      assert w == Range(0, q + 1);
    } else {
      assert forall p: nat :: !WindowFits(p, padded, kernel, stride);
      assert w == {};
    }
  }

  lemma {:induction false} ConvDimCounts(input: Shape, weight: Shape, strides: seq<nat>, pads: seq<nat>, dilations: seq<nat>, i: nat)
    requires i < Max(|strides|, 1)
    ensures var padded := SpatialDim(input, i) + ConvPad(pads, Max(|strides|, 1), i);
            var kernel := EffectiveKernel(weight, dilations, i);
            var out := ConvShape(input, weight, strides, pads, dilations);
            && |out| == (if input == [] then 1 else 2) + Max(1, |strides|)
            && (out[|out| - Max(1, |strides|) + i] == |Windows(padded, kernel, Max(GetOr(strides, i, 1), 1))|
                <==> (SpatialDim(input, i) > 0 <==> kernel <= padded))
  {
    WindowCount(SpatialDim(input, i) + ConvPad(pads, Max(|strides|, 1), i),
                EffectiveKernel(weight, dilations, i), Max(GetOr(strides, i, 1), 1));
  }

  /** A kernel of 5 on 2 elements: one output is inferred, but no window fits. */
  lemma {:induction false} LargeKernelCounterexample()
    ensures ConvDim([1, 1, 2], [1, 1, 5], [1], [0, 0], [1], 0) == 1
    ensures |Windows(2, 5, 1)| == 0
  {
    WindowCount(2, 5, 1);
  }

  function SliceOf(begin: int, end: int, stride: int): MirOp {
    SliceByIndex("s", "x", [begin], [end], [stride], [], [], [])
  }

  /** On 10 elements: a stride of 3, a begin counted from the end, an end past the dimension. */
  lemma {:induction false} SliceCounterexample()
    ensures SliceDim([10], SliceOf(0, 10, 3), 0) == 10 != |SelectedIndices(10, 0, 10, 3)|
    ensures SliceDim([10], SliceOf(-3, 10, 1), 0) == 10 != |SelectedIndices(10, 7, 10, 1)|
    ensures SliceDim([10], SliceOf(0, 20, 1), 0) == 20 != |SelectedIndices(10, 0, 20, 1)|
  {
    SliceDimCounts([10], SliceOf(0, 10, 3), 0, 3);
    SliceDimCounts([10], SliceOf(-3, 10, 1), 0, 1);
    SliceDimCounts([10], SliceOf(0, 20, 1), 0, 1);
  }

  // ----- the total rules

  /** The run-time failures of the rules: a division by zero or an index out of range. */
  predicate Panics(op: MirOp, shapes: ShapeMap) {
    match op
    case Split(_, x, axis, numSplits) => x in shapes && axis < |shapes[x]| && numSplits == 0
    case SliceByIndex(_, x, _, _, _, _, _, _) => x in shapes && !SliceInRange(op)
    case Flatten2d(_, x, axis) => x in shapes && axis > |shapes[x]|
    case _ => false
  }

  function BinaryShape(a: Shape, b: Shape): Shape {
    if a != [] && b != [] then OrElse(Broadcast(a, b), a)
    else if a != [] then a
    else b
  }

  function WhereShape(c: Shape, a: Shape, b: Shape): Shape {
    if a != [] && b != [] && c != [] then OrElse(Then(Broadcast(a, b), c), a)
    else if a != [] then a
    else if c != [] then c
    else b
  }

  ghost predicate SameInAnyOrder(c: Shape, a: Shape, b: Shape) {
    WhereShape(c, a, b) == WhereShape(c, b, a) == WhereShape(a, b, c) == WhereShape(a, c, b)
    == WhereShape(b, a, c) == WhereShape(b, c, a)
  }

  /** A selection does not depend on the order of its operands exactly when they broadcast
      together without mixing a zero and a one before a larger dimension or, if some shape is
      unknown, when the known ones are the same. */
  lemma {:induction false} WhereOrderIrrelevant(c: Shape, a: Shape, b: Shape)
    ensures SameInAnyOrder(c, a, b) <==>
      if a != [] && b != [] && c != [] then Then(Broadcast(a, b), c).Some? && !Mixes(a, b, c)
      else (a == b || a == [] || b == []) && (b == c || b == [] || c == []) && (c == a || c == [] || a == [])
    ensures a != [] && b != [] && c != [] && SameInAnyOrder(c, a, b) ==> Some(WhereShape(c, a, b)) == Then(Broadcast(a, b), c)
  {
    if a != [] && b != [] && c != [] { KnownOrderIrrelevant(c, a, b); }
  }

  lemma {:induction false} KnownOrderIrrelevant(c: Shape, a: Shape, b: Shape)
    requires a != [] && b != [] && c != []
    ensures SameInAnyOrder(c, a, b) <==> Then(Broadcast(a, b), c).Some? && !Mixes(a, b, c)
    ensures SameInAnyOrder(c, a, b) ==> Some(WhereShape(c, a, b)) == Then(Broadcast(a, b), c)
  {
    BroadcastCommutes(a, b);
    BroadcastCommutes(b, c);
    BroadcastCommutes(c, a);
    if Then(Broadcast(a, b), c).Some? {
      NextGrouping(a, b, c);
      PreviousGrouping(a, b, c);
      if !Mixes(a, b, c) { NextGrouping(c, a, b); }
    } else {
      BroadcastTwice(a, c);
      BroadcastTwice(a, a);
    }
  }

  /** The shape an operation produces on the shapes known so far, or `[]`. */
  function RuleShape(name: string, op: MirOp, shapes: ShapeMap, maxSeqLen: nat): Shape {
    match op
    case Const(_, valuePath, _) =>
      if name in shapes then shapes[name] else if "scalar://" <= valuePath then [1] else []
    case Linear(_, x, _, _) => Known(shapes, x)
    case LayerNorm(_, x, _, _) => Known(shapes, x)
    case Unary(_, _, x) => Known(shapes, x)
    case Binary(_, _, x, y) => BinaryShape(Known(shapes, x), Known(shapes, y))
    case Where(_, condition, x, y) => WhereShape(Known(shapes, condition), Known(shapes, x), Known(shapes, y))
    case Select(_, _, x, _) => Known(shapes, x)
    case MatMul(_, x, y, _) => (
      match (Lookup(shapes, x), Lookup(shapes, y))
      case (Some(a), Some(b)) => MatMulShape(a, b)
      case (Some(a), None) => a
      case (None, _) => [])
    case Attention(_, query, _, _, _) => Known(shapes, query)
    case Gather(_, x, indices, axis) => (
      match (Lookup(shapes, x), Lookup(shapes, indices))
      case (Some(a), Some(i)) => GatherShape(a, i, axis)
      case (Some(a), None) => a
      case (None, _) => [])
    case Concat(_, values, axis) => (
      match if values == [] then None else Lookup(shapes, values[0])
      case Some(first) => ConcatShape(first, OperandShapes(shapes, values), axis)
      case None => [])
    case Stack(_, values, axis) => (
      match if values == [] then None else Lookup(shapes, values[0])
      case Some(first) => StackShape(first, axis, |values|)
      case None => [])
    case Split(_, x, axis, numSplits) => if x in shapes then SplitShape(shapes[x], axis, numSplits) else []
    case SliceByIndex(_, x, _, _, _, _, _, _) => if x in shapes && SliceInRange(op) then SliceShape(shapes[x], op) else []
    case Reduce(_, _, x, axes, keepDims) => if x in shapes then ReduceShape(shapes[x], axes, keepDims) else []
    case Reshape(_, _, target) => target
    case Transpose(_, x, perm) => if x in shapes then TransposeShape(shapes[x], perm) else []
    case Tile(_, x, reps) => if x in shapes then TileShape(shapes[x], reps) else []
    case ExpandDims(_, x, axes) => if x in shapes then ExpandDimsShape(shapes[x], axes) else []
    case Squeeze(_, x, axes) => if x in shapes then SqueezeShape(shapes[x], axes) else []
    case Pad(_, x, pads) => if x in shapes then PadShape(shapes[x], pads) else []
    case Topk(_, x, k, axis) => if x in shapes then TopkShape(shapes[x], k, axis) else []
    case Flatten2d(_, x, axis) => if x in shapes && axis <= |shapes[x]| then Flatten2dShape(shapes[x], axis) else []
    case Conv(_, x, kernel, strides, pads, dilations) => (
      match ConvFallible(x, kernel, strides, pads, dilations, shapes, "")
      case Ok(s) => s
      case Err(_) => Known(shapes, x))
    case ConvTranspose(_, x, _, outputShape) => if outputShape != [] then outputShape else Known(shapes, x)
    case Fill(_, target) => target
    case ReadState(_, _, target, _) => target
    case UpdateState(_, _, value) => Known(shapes, value)
    case Identity(_, x) => if x == PLACEHOLDER then [1, maxSeqLen] else Known(shapes, x)
    case Other(_, _, _, _) => []
  }

  function OperandShapes(shapes: ShapeMap, values: seq<string>): seq<Option<Shape>> {
    seq(|values|, i requires 0 <= i < |values| => Lookup(shapes, values[i]))
  }

  function OutputShapeExplicit(name: string, op: MirOp, shape: Shape, shapes: ShapeMap, maxSeqLen: nat,
                               hint: Option<Shape>): Shape {
    if shape != [] then shape
    else if hint.Some? && hint.value != [] then hint.value
    else if Contains(name, "input_ids") then [1, maxSeqLen]
    else RuleShape(name, op, shapes, maxSeqLen)
  }

  // ----- the failure-reporting rules

  datatype ShapeInferenceError =
    | MissingInputShape(nodeName: string, inputId: string)
    | UnknownOp(nodeName: string, opName: string)
    | NameHeuristicUsed(nodeName: string, inferred: Shape)
    | Indeterminate(nodeName: string)

  type Inferred = Result<Shape, ShapeInferenceError>

  function OrMissing(shapes: ShapeMap, id: string, name: string): Inferred {
    if id in shapes then Ok(shapes[id]) else Err(MissingInputShape(name, id))
  }

  function MapShape(shapes: ShapeMap, id: string, name: string, f: Shape -> Shape): Inferred {
    if id in shapes then Ok(f(shapes[id])) else Err(MissingInputShape(name, id))
  }

  function ConvFallible(x: string, kernel: string, strides: seq<nat>, pads: seq<nat>, dilations: seq<nat>,
                        shapes: ShapeMap, nodeName: string): Inferred {
    if x !in shapes then Err(MissingInputShape(nodeName, x))
    else if kernel !in shapes then Err(MissingInputShape(nodeName, kernel))
    else Ok(ConvShape(shapes[x], shapes[kernel], strides, pads, dilations))
  }

  function OutputShapeFallible(name: string, op: MirOp, shape: Shape, shapes: ShapeMap, maxSeqLen: nat): Inferred {
    if shape != [] then Ok(shape)
    else if Contains(name, "input_ids") then Err(NameHeuristicUsed(name, [1, maxSeqLen]))
    else FallibleRule(name, op, shapes, maxSeqLen)
  }

  function FallibleRule(name: string, op: MirOp, shapes: ShapeMap, maxSeqLen: nat): Inferred {
    match op
    case Const(_, valuePath, _) =>
      if name in shapes then Ok(shapes[name]) else if "scalar://" <= valuePath then Ok([1]) else Err(Indeterminate(name))
    case Linear(_, x, _, _) => if x in shapes then Ok(shapes[x]) else Err(Indeterminate(name))
    case LayerNorm(_, x, _, _) => OrMissing(shapes, x, name)
    case Unary(_, _, x) => OrMissing(shapes, x, name)
    case Binary(_, _, x, y) => (
      match (Lookup(shapes, x), Lookup(shapes, y))
      case (Some(a), Some(b)) => Ok(OrElse(Broadcast(a, b), a))
      case (Some(a), None) => Ok(a)
      case (None, Some(b)) => Ok(b)
      case (None, None) => Err(MissingInputShape(name, x)))
    case Where(_, condition, x, y) => (
      match (Lookup(shapes, x), Lookup(shapes, y), Lookup(shapes, condition))
      case (Some(a), Some(b), Some(c)) => Ok(OrElse(Then(Broadcast(a, b), c), a))
      case (Some(a), _, _) => Ok(a)
      case (None, _, Some(c)) => Ok(c)
      case (None, Some(b), None) => Ok(b)
      case (None, None, None) => Err(MissingInputShape(name, x)))
    case Select(_, _, x, _) => OrMissing(shapes, x, name)
    case MatMul(_, x, y, _) => (
      match (Lookup(shapes, x), Lookup(shapes, y))
      case (Some(a), Some(b)) => Ok(MatMulShape(a, b))
      case (Some(a), None) => Ok(a)
      case (None, _) => Err(MissingInputShape(name, x)))
    case Attention(_, query, _, _, _) => OrMissing(shapes, query, name)
    case Gather(_, x, indices, axis) => (
      match (Lookup(shapes, x), Lookup(shapes, indices))
      case (Some(a), Some(i)) => Ok(GatherShape(a, i, axis))
      case (Some(_), None) => Err(MissingInputShape(name, indices))
      case (None, _) => Err(MissingInputShape(name, x)))
    case Concat(_, values, axis) => (
      match if values == [] then None else Lookup(shapes, values[0])
      case Some(first) => Ok(ConcatShape(first, OperandShapes(shapes, values), axis))
      case None => Err(MissingInputShape(name, if values == [] then "" else values[0])))
    case Stack(_, values, axis) => (
      match if values == [] then None else Lookup(shapes, values[0])
      case Some(first) => Ok(StackShape(first, axis, |values|))
      case None => Err(MissingInputShape(name, if values == [] then "" else values[0])))
    case Split(_, x, axis, numSplits) => MapShape(shapes, x, name, s => SplitShape(s, axis, numSplits))
    case SliceByIndex(_, x, _, _, _, _, _, _) =>
      MapShape(shapes, x, name, s => if SliceInRange(op) then SliceShape(s, op) else [])
    case Reduce(_, _, x, axes, keepDims) => MapShape(shapes, x, name, s => ReduceShape(s, axes, keepDims))
    case Reshape(_, _, target) => Ok(target)
    case Transpose(_, x, perm) => MapShape(shapes, x, name, s => TransposeShape(s, perm))
    case Tile(_, x, reps) => MapShape(shapes, x, name, s => TileShape(s, reps))
    case ExpandDims(_, x, axes) => MapShape(shapes, x, name, s => ExpandDimsShape(s, axes))
    case Squeeze(_, x, axes) => MapShape(shapes, x, name, s => SqueezeShape(s, axes))
    case Pad(_, x, pads) => MapShape(shapes, x, name, s => PadShape(s, pads))
    case Topk(_, x, k, axis) => MapShape(shapes, x, name, s => TopkShape(s, k, axis))
    case Flatten2d(_, x, axis) => MapShape(shapes, x, name, s => if axis <= |s| then Flatten2dShape(s, axis) else [])
    case Conv(_, x, kernel, strides, pads, dilations) =>
      ConvFallible(x, kernel, strides, pads, dilations, shapes, name)
    case ConvTranspose(_, x, _, outputShape) => if outputShape != [] then Ok(outputShape) else OrMissing(shapes, x, name)
    case Fill(_, target) => Ok(target)
    case ReadState(_, _, target, _) => Ok(target)
    case UpdateState(_, _, value) => OrMissing(shapes, value, name)
    case Identity(_, x) => if x == PLACEHOLDER then Err(NameHeuristicUsed(name, [1, maxSeqLen])) else OrMissing(shapes, x, name)
    case Other(tag, _, _, _) => Err(UnknownOp(name, tag))
  }

  // ----- the two agree

  ghost predicate NoneEmpty(shapes: ShapeMap) { forall id | id in shapes :: shapes[id] != [] }

  ghost predicate NotEmptyAt(shapes: ShapeMap, id: string) { id in shapes ==> shapes[id] != [] }

  /** The elementwise rules, which alone tell an empty shape from an absent one, see no empty shape. */
  ghost predicate SeesNoEmpty(op: MirOp, shapes: ShapeMap) {
    && (op.Binary? || op.Where? ==> NotEmptyAt(shapes, op.x) && NotEmptyAt(shapes, op.y))
    && (op.Where? ==> NotEmptyAt(shapes, op.condition))
  }

  /** The four guesses the total rules make where the others report a failure. */
  function Guess(name: string, op: MirOp, shape: Shape, shapes: ShapeMap, maxSeqLen: nat): Option<Shape> {
    if shape != [] then None
    else if Contains(name, "input_ids") then Some([1, maxSeqLen])
    else if op.Identity? && op.x == PLACEHOLDER then Some([1, maxSeqLen])
    else if op.Gather? && op.x in shapes && op.indices !in shapes then Some(shapes[op.x])
    else if op.Conv? && op.x in shapes && op.kernel !in shapes then Some(shapes[op.x])
    else None
  }

  ghost predicate ManyOperands(op: MirOp) { op.Concat? || op.Stack? }

  ghost predicate SeveralOperands(op: MirOp) { op.Binary? || op.Where? || op.MatMul? || op.Gather? || op.Conv? }

  ghost predicate Reindexes(op: MirOp) { op.Transpose? || op.Tile? || op.ExpandDims? || op.Squeeze? || op.Flatten2d? }

  ghost predicate Restructures(op: MirOp) {
    Reindexes(op) || op.Split? || op.SliceByIndex? || op.Reduce? || op.Pad? || op.Topk?
  }

  /** A successful inference is what the total rules give, and a failure is an unknown shape
      there, except for exactly the four guesses. */
  ghost predicate Agree(name: string, op: MirOp, shape: Shape, shapes: ShapeMap, maxSeqLen: nat) {
    match OutputShapeFallible(name, op, shape, shapes, maxSeqLen)
    case Ok(s) =>
      && OutputShapeExplicit(name, op, shape, shapes, maxSeqLen, None) == s
      && Guess(name, op, shape, shapes, maxSeqLen).None?
    case Err(_) =>
      OutputShapeExplicit(name, op, shape, shapes, maxSeqLen, None) == OrUnknown(Guess(name, op, shape, shapes, maxSeqLen))
  }

  /** No empty shape meets one with a zero dimension, which would come out as 1. */
  ghost predicate BinaryAgrees(x: Option<Shape>, y: Option<Shape>) {
    x.Some? && y.Some? ==> (x.value == [] ==> 0 !in y.value) && (y.value == [] ==> 0 !in x.value)
  }

  /** No dimension of the other shape, missing ones being 1, is larger. */
  ghost predicate Covers(s: Shape, other: Shape) {
    |other| <= |s| && forall k: nat :: DimAt(other, k) <= DimAt(s, k)
  }

  /** The first shape in the order of a selection that is not empty. */
  function FirstShaped(c: Shape, a: Shape, b: Shape): Shape {
    if a != [] then a else if c != [] then c else b
  }

  /** With all three shapes known, one of them empty, the first that is not must cover the others
      if they broadcast together, and be `a` if they do not. Otherwise no known empty shape may
      stand before one that is not empty. */
  ghost predicate WhereAgrees(c: Option<Shape>, a: Option<Shape>, b: Option<Shape>) {
    var (known, first) := ([a, b, c], FirstShaped(OrUnknown(c), OrUnknown(a), OrUnknown(b)));
    if None !in known then
      Some([]) in known ==>
        if Then(Broadcast(a.value, b.value), c.value).None? then first == a.value
        else forall s | s in known :: Covers(first, s.value)
    else
      && (a == Some([]) ==> OrUnknown(c) == [] == OrUnknown(b))
      && (a == None && c == Some([]) ==> OrUnknown(b) == [])
  }

  ghost predicate ElementwiseAgrees(op: MirOp, shapes: ShapeMap) {
    && (op.Binary? ==> BinaryAgrees(Lookup(shapes, op.x), Lookup(shapes, op.y)))
    && (op.Where? ==> WhereAgrees(Lookup(shapes, op.condition), Lookup(shapes, op.x), Lookup(shapes, op.y)))
  }

  /** On every map the two engines agree on every operation, but for an elementwise one whose rule
      runs and reads empty shapes it takes differently. */
  lemma {:induction false} EnginesAgreeIff(name: string, op: MirOp, shape: Shape, shapes: ShapeMap, maxSeqLen: nat)
    ensures Agree(name, op, shape, shapes, maxSeqLen) <==>
      (shape == [] && !Contains(name, "input_ids") ==> ElementwiseAgrees(op, shapes))
  {
    if shape == [] && !Contains(name, "input_ids") {
      if op.Binary? {
        BinaryAgree(name, op, shapes, maxSeqLen);
      } else if op.Where? {
        WhereAgree(name, op, shapes, maxSeqLen);
      } else {
        RulesAgree(name, op, shapes, maxSeqLen);
      }
    }
  }

  /** In particular they agree unless an elementwise rule sees an empty shape. */
  lemma {:induction false} EnginesAgree(name: string, op: MirOp, shape: Shape, shapes: ShapeMap, maxSeqLen: nat)
    requires SeesNoEmpty(op, shapes)
    ensures Agree(name, op, shape, shapes, maxSeqLen)
  {
    EnginesAgreeIff(name, op, shape, shapes, maxSeqLen);
  }

  lemma {:induction false} BinaryAgree(name: string, op: MirOp, shapes: ShapeMap, maxSeqLen: nat)
    requires op.Binary? && !Contains(name, "input_ids")
    ensures Agree(name, op, [], shapes, maxSeqLen) <==> BinaryAgrees(Lookup(shapes, op.x), Lookup(shapes, op.y))
  {
    if op.x in shapes && op.y in shapes {
      var (a, b) := (shapes[op.x], shapes[op.y]);
      BroadcastIdentity(a);
      BroadcastIdentity(b);
      BroadcastCommutes(a, b);
      BroadcastDims(a, []);
      BroadcastDims(b, []);
    }
  }

  lemma {:induction false} WhereAgree(name: string, op: MirOp, shapes: ShapeMap, maxSeqLen: nat)
    requires op.Where? && !Contains(name, "input_ids")
    ensures Agree(name, op, [], shapes, maxSeqLen)
            <==> WhereAgrees(Lookup(shapes, op.condition), Lookup(shapes, op.x), Lookup(shapes, op.y))
  {
    if op.condition in shapes && op.x in shapes && op.y in shapes {
      SelectionAgrees(shapes[op.condition], shapes[op.x], shapes[op.y]);
    }
  }

  lemma {:induction false} SelectionAgrees(c: Shape, a: Shape, b: Shape)
    ensures WhereShape(c, a, b) == OrElse(Then(Broadcast(a, b), c), a) <==> WhereAgrees(Some(c), Some(a), Some(b))
  {
    var (known, first) := ([Some(a), Some(b), Some(c)], FirstShaped(c, a, b));
    assert None !in known;
    if Then(Broadcast(a, b), c).Some? {
      CoversAll(a, b, c, first);
      assert known[0] == Some(a) && known[1] == Some(b) && known[2] == Some(c);
    }
  }

  /** A broadcast result is a given shape among the operands exactly if that covers the others. */
  lemma {:induction false} CoversAll(a: Shape, b: Shape, c: Shape, s: Shape)
    requires Then(Broadcast(a, b), c).Some? && s in [a, b, c]
    ensures Then(Broadcast(a, b), c) == Some(s) <==> Covers(s, a) && Covers(s, b) && Covers(s, c)
  {
    var r := Then(Broadcast(a, b), c).value;
    BothSteps(a, b, c);
    if Covers(s, a) && Covers(s, b) && Covers(s, c) { SameDims(r, s); }
  }

  lemma {:induction false} RulesAgree(name: string, op: MirOp, shapes: ShapeMap, maxSeqLen: nat)
    requires !op.Binary? && !op.Where? && !Contains(name, "input_ids")
    ensures Agree(name, op, [], shapes, maxSeqLen)
  {
    if Restructures(op) {
      RestructuringAgrees(name, op, shapes, maxSeqLen);
    } else if ManyOperands(op) {
      JoiningAgrees(name, op, shapes, maxSeqLen);
    } else if SeveralOperands(op) {
      CombiningAgrees(name, op, shapes, maxSeqLen);
    }
  }

  lemma {:induction false} JoiningAgrees(name: string, op: MirOp, shapes: ShapeMap, maxSeqLen: nat)
    requires ManyOperands(op) && !Contains(name, "input_ids")
    ensures Agree(name, op, [], shapes, maxSeqLen)
  {
  }

  lemma {:induction false} CombiningAgrees(name: string, op: MirOp, shapes: ShapeMap, maxSeqLen: nat)
    requires SeveralOperands(op) && !op.Binary? && !op.Where? && !Contains(name, "input_ids")
    ensures Agree(name, op, [], shapes, maxSeqLen)
  {
  }

  lemma {:induction false} RestructuringAgrees(name: string, op: MirOp, shapes: ShapeMap, maxSeqLen: nat)
    requires Restructures(op) && !Contains(name, "input_ids")
    ensures Agree(name, op, [], shapes, maxSeqLen)
  {
    if Reindexes(op) { ReindexingAgrees(name, op, shapes, maxSeqLen); }
  }

  lemma {:induction false} ReindexingAgrees(name: string, op: MirOp, shapes: ShapeMap, maxSeqLen: nat)
    requires Reindexes(op) && !Contains(name, "input_ids")
    ensures Agree(name, op, [], shapes, maxSeqLen)
  {
  }

  /** With an empty shape in the map the two may differ. */
  lemma {:induction false} EmptyShapeCounterexample()
    ensures var shapes: ShapeMap := map["x" := [], "y" := [3], "c" := [1]];
            OutputShapeFallible("n", Where("n", "c", "x", "y"), [], shapes, 8)
            != Ok(OutputShapeExplicit("n", Where("n", "c", "x", "y"), [], shapes, 8, None))
  {
    var shapes: ShapeMap := map["x" := [], "y" := [3], "c" := [1]];
    var op := Where("n", "c", "x", "y");
    assert !Contains("n", "input_ids");
    assert RuleShape("n", op, shapes, 8) == [1];
    BroadcastDims([], [3]);
    BroadcastDims([3], [1]);
    assert Broadcast([], [3]).Some?;
    var ab := Broadcast([], [3]).value;
    assert DimAt(ab, 0) == 3;
    assert ab == [3];
    assert Broadcast([3], [1]).Some?;
    assert DimAt(Broadcast([3], [1]).value, 0) == 3;
  }

  /** The declared product shape of a right operand that may have to be transposed. */
  ghost function ProductShape(x: Shape, y: Shape, transposeY: bool): Shape
    requires |x| >= 2 && |y| >= 2
  {
    if transposeY then MatMulShape(x, y[..|y| - 2] + [y[|y| - 1], y[|y| - 2]]) else MatMulShape(x, y)
  }

  /** The rule does not look at the transposition flag, which is right exactly for a square
      right operand or when nothing is to be transposed. */
  lemma {:induction false} MatMulIgnoresTranspose(name: string, op: MirOp, shapes: ShapeMap, maxSeqLen: nat)
    requires op.MatMul? && op.x in shapes && op.y in shapes
    requires |shapes[op.x]| >= 2 && |shapes[op.y]| >= 2
    ensures var y := shapes[op.y];
            RuleShape(name, op, shapes, maxSeqLen) == ProductShape(shapes[op.x], y, op.transposeY)
            <==> !op.transposeY || y[|y| - 1] == y[|y| - 2]
  {
    var x, y := shapes[op.x], shapes[op.y];
    var t := y[..|y| - 2] + [y[|y| - 1], y[|y| - 2]];
    assert t[..|t| - 2] == y[..|y| - 2];
    var r, p := MatMulShape(x, y), ProductShape(x, y, op.transposeY);
    assert r[|r| - 1] == y[|y| - 1];
    if op.transposeY { assert p[|p| - 1] == y[|y| - 2]; }
  }

  lemma {:induction false} Matrices(m: nat, k: nat, n: nat, l: nat)
    ensures MatMulShape([m, k], [n, l]) == [m, l]
  {
    assert [m, k][..0] == [] && [n, l][..0] == [];
    assert [] + [m, l] == [m, l];
  }

  lemma {:induction false} MatMulRule(name: string, op: MirOp, shapes: ShapeMap, maxSeqLen: nat)
    requires op.MatMul? && op.x in shapes && op.y in shapes
    ensures RuleShape(name, op, shapes, maxSeqLen) == MatMulShape(shapes[op.x], shapes[op.y])
  {
  }

  /** A 2 by 3 matrix times the transpose of a 4 by 3 one is 2 by 4, not 2 by 3. */
  lemma {:induction false} TransposeCounterexample(shapes: ShapeMap)
    requires shapes == map["x" := [2, 3], "y" := [4, 3]]
    ensures RuleShape("m", MatMul("m", "x", "y", true), shapes, 8) == [2, 3]
    ensures ProductShape([2, 3], [4, 3], true) == [2, 4]
  {
    MatMulRule("m", MatMul("m", "x", "y", true), shapes, 8);
    Matrices(2, 3, 4, 3);
    Matrices(2, 3, 3, 4);
    assert [4, 3][..0] + [3, 4] == [3, 4];
  }

  function Batch(x: Shape): Shape
    requires |x| >= 2
  {
    x[..|x| - 2]
  }

  lemma {:induction false} MatMulParts(x: Shape, y: Shape)
    requires |x| >= 2 && |y| >= 2
    ensures var batch := OrElse(Broadcast(Batch(x), Batch(y)), Batch(x));
            MatMulShape(x, y) == batch + [x[|x| - 2], y[|y| - 1]] && Batch(MatMulShape(x, y)) == batch
  {
    if Batch(x) == [] && Batch(y) == [] { BroadcastDims([], []); }
  }

  /** Where a chain of products broadcasts from left to right, its shape does not depend on the
      grouping exactly when no zero and one are mixed before a larger batch dimension. */
  lemma {:induction false} MatMulAssociates(x: Shape, y: Shape, z: Shape)
    requires |x| >= 2 && |y| >= 2 && |z| >= 2
    requires Then(Broadcast(Batch(x), Batch(y)), Batch(z)).Some?
    ensures MatMulShape(MatMulShape(x, y), z) == MatMulShape(x, MatMulShape(y, z))
            <==> !Mixes(Batch(x), Batch(y), Batch(z))
  {
    var (a, b, c) := (Batch(x), Batch(y), Batch(z));
    MatMulParts(x, y);
    MatMulParts(y, z);
    MatMulParts(MatMulShape(x, y), z);
    MatMulParts(x, MatMulShape(y, z));
    NextGrouping(a, b, c);
    if Broadcast(b, c).Some? { BroadcastCommutes(Broadcast(b, c).value, a); }
    if Mixes(a, b, c) { MixedBatches(a, b, c); }
  }

  lemma {:induction false} MixedBatches(a: Shape, b: Shape, c: Shape)
    requires Then(Broadcast(a, b), c).Some? && Mixes(a, b, c)
    ensures Then(Broadcast(a, b), c).value != a
    ensures Then(Broadcast(a, b), c) != Broadcast(a, b)
  {
    BothSteps(a, b, c);
    BroadcastDims(a, b);
    var k: nat :| Mixed(DimAt(a, k), DimAt(b, k), DimAt(c, k));
    assert DimAt(Then(Broadcast(a, b), c).value, k) >= 2;
  }
}
