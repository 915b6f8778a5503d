/** What each forward rule gives, dimension by dimension. */
module ShapeRules {
  import opened Wrappers
  import opened Strings
  import opened Arithmetic
  import opened ShapeOps
  import opened ElementCounts
  import opened Mir
  import opened ShapeInference
  import opened ForwardShapes

  // ----- shapes taken over

  /** Operations that keep the shape of one operand. */
  ghost predicate KeepsShape(op: MirOp) {
    || op.Linear? || op.LayerNorm? || op.Unary? || op.Select? || op.Attention? || op.UpdateState?
    || (op.Identity? && op.x != "__placeholder__")
  }

  ghost function KeptOperand(op: MirOp): string
    requires KeepsShape(op)
  {
    if op.Attention? then op.query else if op.UpdateState? then op.update else op.x
  }

  lemma {:induction false} KeepingRule(name: string, op: MirOp, shapes: ShapeMap, maxSeqLen: nat)
    requires KeepsShape(op) && KeptOperand(op) in shapes
    ensures RuleShape(name, op, shapes, maxSeqLen) == shapes[KeptOperand(op)]
  {
  }

  /** Operations that state their shape themselves, and graph inputs. */
  lemma {:induction false} StatedRule(name: string, op: MirOp, shapes: ShapeMap, maxSeqLen: nat)
    ensures op.Reshape? || op.Fill? || op.ReadState? ==> RuleShape(name, op, shapes, maxSeqLen) == op.target
    ensures op.ConvTranspose? && op.outputShape != [] ==> RuleShape(name, op, shapes, maxSeqLen) == op.outputShape
    ensures op.ConvTranspose? && op.outputShape == [] && op.x in shapes ==> RuleShape(name, op, shapes, maxSeqLen) == shapes[op.x]
    ensures op.Identity? && op.x == "__placeholder__" ==> RuleShape(name, op, shapes, maxSeqLen) == [1, maxSeqLen]
    ensures op.Const? && name in shapes ==> RuleShape(name, op, shapes, maxSeqLen) == shapes[name]
    ensures op.Const? && name !in shapes ==>
            RuleShape(name, op, shapes, maxSeqLen) == if "scalar://" <= op.valuePath then [1] else []
  {
  }

  /** A declared shape counts first, then a hint that is not empty, then the name, then the rule. */
  lemma {:induction false} ShapeOrder(name: string, op: MirOp, shape: Shape, shapes: ShapeMap, maxSeqLen: nat, hint: Option<Shape>)
    ensures var r := OutputShapeExplicit(name, op, shape, shapes, maxSeqLen, hint);
      && (shape != [] ==> r == shape)
      && (shape == [] && hint.Some? && hint.value != [] ==> r == hint.value)
      && (shape == [] && (hint.None? || hint.value == []) ==>
            r == if Contains(name, "input_ids") then [1, maxSeqLen] else RuleShape(name, op, shapes, maxSeqLen))
  {
  }

  // ----- elementwise operations and products

  /** Dimension `i` of a shape that is preceded by ones up to this rank. */
  ghost function OnesBefore(s: Shape, rank: nat, i: nat): nat
    requires |s| <= rank && i < rank
  {
    if i + |s| < rank then 1 else s[i + |s| - rank]
  }

  ghost predicate JoinedAt(d: nat, x: nat, y: nat) { (x == y || x == 1 || y == 1) && d >= x && d >= y && (d == x || d == y) }

  /** The larger of each pair of right-aligned dimensions, provided each pair is equal or has a 1. */
  ghost predicate Joined(r: Shape, a: Shape, b: Shape) {
    && |r| >= |a| && |r| >= |b| && (|r| == |a| || |r| == |b|)
    && forall i: nat | i < |r| :: JoinedAt(r[i], OnesBefore(a, |r|, i), OnesBefore(b, |r|, i))
  }

  lemma {:induction false} BroadcastJoins(a: Shape, b: Shape, r: Shape)
    ensures Broadcast(a, b) == Some(r) <==> Joined(r, a, b)
  {
    var n := Max(|a|, |b|);
    forall i: nat | i < n ensures Aligned(a, n, i) == OnesBefore(a, n, i) && Aligned(b, n, i) == OnesBefore(b, n, i) {}
    if Broadcast(a, b) == Some(r) {
      forall i: nat | i < |r| ensures JoinedAt(r[i], OnesBefore(a, |r|, i), OnesBefore(b, |r|, i)) {
        assert Compatible(Aligned(a, n, i), Aligned(b, n, i)) && r[i] == AlignedMax(a, b, n, i);
      }
    }
    if Joined(r, a, b) {
      forall i: nat | i < n ensures Compatible(Aligned(a, n, i), Aligned(b, n, i)) && r[i] == AlignedMax(a, b, n, i) {
        assert JoinedAt(r[i], OnesBefore(a, n, i), OnesBefore(b, n, i));
      }
      assert Broadcast(a, b).value == r;
    }
  }

  /** Two known shapes are joined if they can be; otherwise the first counts, or the known one. */
  lemma {:induction false} BinaryRule(name: string, op: MirOp, shapes: ShapeMap, maxSeqLen: nat)
    requires op.Binary?
    ensures var (r, a, b) := (RuleShape(name, op, shapes, maxSeqLen), Known(shapes, op.x), Known(shapes, op.y));
      if a == [] then r == b else if b == [] then r == a
      else Joined(r, a, b) || (r == a && forall s :: !Joined(s, a, b))
  {
    var (a, b) := (Known(shapes, op.x), Known(shapes, op.y));
    forall s ensures Broadcast(a, b) == Some(s) <==> Joined(s, a, b) { BroadcastJoins(a, b, s); }
  }

  lemma {:induction false} WhereRule(name: string, op: MirOp, shapes: ShapeMap, maxSeqLen: nat)
    requires op.Where?
    ensures var (r, c) := (RuleShape(name, op, shapes, maxSeqLen), Known(shapes, op.condition));
      var (a, b) := (Known(shapes, op.x), Known(shapes, op.y));
      if a == [] || b == [] || c == [] then r == if a != [] then a else if c != [] then c else b
      else (exists ab :: Joined(ab, a, b) && Joined(r, ab, c)) || (r == a && forall ab, s :: !(Joined(ab, a, b) && Joined(s, ab, c)))
  {
    var (a, b, c) := (Known(shapes, op.x), Known(shapes, op.y), Known(shapes, op.condition));
    forall s ensures Broadcast(a, b) == Some(s) <==> Joined(s, a, b) { BroadcastJoins(a, b, s); }
    forall ab, s ensures Broadcast(ab, c) == Some(s) <==> Joined(s, ab, c) { BroadcastJoins(ab, c, s); }
  }

  /** A product has the rows of the left operand, the columns of the right one, and above them the
      joined batches. */
  lemma {:induction false} MatMulRuleDims(name: string, op: MirOp, shapes: ShapeMap, maxSeqLen: nat)
    requires op.MatMul? && op.x in shapes && op.y in shapes
    ensures var (r, x, y) := (RuleShape(name, op, shapes, maxSeqLen), shapes[op.x], shapes[op.y]);
      if |x| < 2 || |y| < 2 then r == x
      else
        && |r| >= 2 && r[|r| - 2] == x[|x| - 2] && r[|r| - 1] == y[|y| - 1]
        && var (batch, left, right) := (r[..|r| - 2], x[..|x| - 2], y[..|y| - 2]);
           Joined(batch, left, right) || (batch == left && forall s :: !Joined(s, left, right))
  {
    var (x, y) := (shapes[op.x], shapes[op.y]);
    MatMulRule(name, op, shapes, maxSeqLen);
    if |x| >= 2 && |y| >= 2 {
      MatMulParts(x, y);
      forall s ensures Broadcast(Batch(x), Batch(y)) == Some(s) <==> Joined(s, Batch(x), Batch(y)) { BroadcastJoins(Batch(x), Batch(y), s); }
    }
  }

  // ----- transposition

  /** Dimension `i` of a transposed shape is dimension `perm[i]` of the operand. */
  lemma {:induction false} TransposeRule(name: string, op: MirOp, shapes: ShapeMap, maxSeqLen: nat)
    requires op.Transpose? && op.x in shapes
    ensures var (r, s) := (RuleShape(name, op, shapes, maxSeqLen), shapes[op.x]);
      |r| == |op.perm| && forall i | 0 <= i < |op.perm| :: r[i] == if op.perm[i] < |s| then s[op.perm[i]] else 0
  {
  }

  /** Transposing twice is transposing by the composed permutation. */
  lemma {:induction false} TransposeComposes(s: Shape, p: seq<nat>, q: seq<nat>)
    requires forall j | 0 <= j < |q| :: q[j] < |p|
    ensures TransposeShape(TransposeShape(s, p), q) == TransposeShape(s, seq(|q|, j requires 0 <= j < |q| => p[q[j]]))
  {
  }

  /** The inverse permutation restores the shape. */
  lemma {:induction false} TransposeInverts(s: Shape, p: seq<nat>, q: seq<nat>)
    requires |p| == |q| == |s| && forall j | 0 <= j < |s| :: q[j] < |s| && p[q[j]] == j
    ensures TransposeShape(TransposeShape(s, p), q) == s
  {
    TransposeComposes(s, p, q);
  }

  /** The heads of an attention change places with its positions. */
  lemma {:induction false} HeadsTransposed(name: string, shapes: ShapeMap, maxSeqLen: nat)
    requires shapes == map["x" := [1, 512, 16, 64]]
    ensures RuleShape(name, Transpose("t", "x", [0, 2, 1, 3]), shapes, maxSeqLen) == [1, 16, 512, 64]
  {
    TransposeRule(name, Transpose("t", "x", [0, 2, 1, 3]), shapes, maxSeqLen);
  }

  // ----- operations on one axis

  /** The same rank, and the same dimensions but for one position. */
  ghost predicate DiffersAt(r: Shape, s: Shape, at: int) {
    |r| == |s| && forall i | 0 <= i < |s| && i != at :: r[i] == s[i]
  }

  /** Each part has the whole quotient of the split dimension. */
  lemma {:induction false} SplitRule(name: string, op: MirOp, shapes: ShapeMap, maxSeqLen: nat)
    requires op.Split? && op.x in shapes && op.numSplits > 0
    ensures var (r, s) := (RuleShape(name, op, shapes, maxSeqLen), shapes[op.x]);
      && DiffersAt(r, s, op.axis)
      && (op.axis < |s| ==> op.numSplits * r[op.axis] <= s[op.axis] < op.numSplits * r[op.axis] + op.numSplits)
  {
  }

  /** A negative axis counts from the end; along it there are `k` elements. */
  lemma {:induction false} TopkRule(name: string, op: MirOp, shapes: ShapeMap, maxSeqLen: nat)
    requires op.Topk? && op.x in shapes
    ensures var (r, s) := (RuleShape(name, op, shapes, maxSeqLen), shapes[op.x]);
      && (0 <= op.topkAxis < |s| ==> DiffersAt(r, s, op.topkAxis) && r[op.topkAxis] == op.k)
      && (-|s| <= op.topkAxis < 0 ==> DiffersAt(r, s, |s| + op.topkAxis) && r[|s| + op.topkAxis] == op.k)
      && (op.topkAxis >= |s| || op.topkAxis < -|s| ==> r == s)
  {
  }

  /** The sum of a dimension over the operands of known shape. */
  ghost function DimSum(shapes: ShapeMap, values: seq<string>, axis: nat): nat {
    if values == [] then 0
    else (if values[0] in shapes && axis < |shapes[values[0]]| then shapes[values[0]][axis] else 0) + DimSum(shapes, values[1..], axis)
  }

  lemma {:induction false} TotalIsSum(shapes: ShapeMap, values: seq<string>, axis: nat)
    ensures AxisTotal(OperandShapes(shapes, values), axis) == DimSum(shapes, values, axis)
  {
    if values != [] {
      TotalIsSum(shapes, values[1..], axis);
      TotalFromFront(OperandShapes(shapes, values), axis);
      assert OperandShapes(shapes, values)[1..] == OperandShapes(shapes, values[1..]);
    }
  }

  lemma {:induction false} TotalFromFront(shapes: seq<Option<Shape>>, axis: nat)
    requires shapes != []
    ensures AxisTotal(shapes, axis) == AxisTotal(shapes[..1], axis) + AxisTotal(shapes[1..], axis)
  {
    if |shapes| > 1 {
      var n := |shapes| - 1;
      TotalFromFront(shapes[..n], axis);
      assert shapes[..n][..1] == shapes[..1] && shapes[1..][..n - 1] == shapes[..n][1..];
      assert AxisTotal(shapes[..1][..0], axis) == 0;
    } else {
      assert shapes[..1] == shapes;
    }
  }

  lemma {:induction false} ConcatRule(name: string, op: MirOp, shapes: ShapeMap, maxSeqLen: nat)
    requires op.Concat? && op.values != [] && op.values[0] in shapes
    ensures var (r, s) := (RuleShape(name, op, shapes, maxSeqLen), shapes[op.values[0]]);
      DiffersAt(r, s, op.axis) && (op.axis < |s| ==> r[op.axis] == DimSum(shapes, op.values, op.axis))
  {
    TotalIsSum(shapes, op.values, op.axis);
  }

  /** A new dimension, of the number of operands, comes before those from `axis` on. */
  lemma {:induction false} StackRule(name: string, op: MirOp, shapes: ShapeMap, maxSeqLen: nat)
    requires op.Stack? && op.values != [] && op.values[0] in shapes
    ensures var (r, s) := (RuleShape(name, op, shapes, maxSeqLen), shapes[op.values[0]]);
      var at := if op.axis < |s| then op.axis else |s|;
      && |r| == |s| + 1 && r[at] == |op.values|
      && (forall i | 0 <= i < at :: r[i] == s[i])
      && (forall i | at <= i < |s| :: r[i + 1] == s[i])
  {
  }

  /** The dimensions of the indices take the place of the gathered one. */
  lemma {:induction false} GatherRule(name: string, op: MirOp, shapes: ShapeMap, maxSeqLen: nat)
    requires op.Gather? && op.x in shapes && op.indices in shapes
    ensures var (r, s, t) := (RuleShape(name, op, shapes, maxSeqLen), shapes[op.x], shapes[op.indices]);
      var at := op.gatherAxis;
      if 0 <= at < |s| then
        && |r| == |s| + |t| - 1
        && (forall i | 0 <= i < at :: r[i] == s[i])
        && (forall i | 0 <= i < |t| :: r[at + i] == t[i])
        && (forall i | at < i < |s| :: r[i + |t| - 1] == s[i])
      else r == s
  {
  }

  // ----- operations on all dimensions

  lemma {:induction false} TileRule(name: string, op: MirOp, shapes: ShapeMap, maxSeqLen: nat)
    requires op.Tile? && op.x in shapes
    ensures var (r, s) := (RuleShape(name, op, shapes, maxSeqLen), shapes[op.x]);
      && |r| == (if |s| > |op.reps| then |s| else |op.reps|)
      && (forall i | 0 <= i < |s| && i < |op.reps| :: r[i] == s[i] * op.reps[i])
      && (forall i | |op.reps| <= i < |s| :: r[i] == s[i])
      && (forall i | |s| <= i < |op.reps| :: r[i] == op.reps[i])
  {
  }

  /** What is added before and what is added behind each dimension: first all the one, then all
      the other. */
  lemma {:induction false} PadRule(name: string, op: MirOp, shapes: ShapeMap, maxSeqLen: nat)
    requires op.Pad? && op.x in shapes
    ensures var (r, s) := (RuleShape(name, op, shapes, maxSeqLen), shapes[op.x]);
      && |r| == |s|
      && forall i | 0 <= i < |s| :: r[i] == s[i] + AmountAt(op.padAmounts, i) + AmountAt(op.padAmounts, |s| + i)
  {
    var (s, pads) := (shapes[op.x], op.padAmounts);
    var r := PadShape(s, pads);
    assert RuleShape(name, op, shapes, maxSeqLen) == r;
    forall i | 0 <= i < |s| ensures r[i] == s[i] + AmountAt(pads, i) + AmountAt(pads, |s| + i) {
      assert AmountAt(pads, i) == GetOr(pads, i, 0) && AmountAt(pads, |s| + i) == GetOr(pads, i + |s|, 0);
    }
  }

  ghost function AmountAt(amounts: seq<nat>, i: nat): nat { if i < |amounts| then amounts[i] else 0 }

  /** Padding twice adds up. */
  lemma {:induction false} PadAddsUp(s: Shape, p: seq<nat>, q: seq<nat>)
    requires |p| == |q|
    ensures PadShape(PadShape(s, p), q) == PadShape(s, seq(|p|, i requires 0 <= i < |p| => p[i] + q[i]))
  {
    var sum: seq<nat> := seq(|p|, i requires 0 <= i < |p| => p[i] + q[i]);
    forall i: nat ensures GetOr(sum, i, 0) == GetOr(p, i, 0) + GetOr(q, i, 0) {}
    forall i | 0 <= i < |s| ensures PadShape(PadShape(s, p), q)[i] == PadShape(s, sum)[i] {
      assert PadShape(s, p)[i] == s[i] + (GetOr(p, i, 0) + GetOr(p, i + |s|, 0));
    }
  }

  lemma {:induction false} FlattenRule(name: string, op: MirOp, shapes: ShapeMap, maxSeqLen: nat)
    requires op.Flatten2d? && op.x in shapes && op.axis <= |shapes[op.x]|
    ensures var (r, s) := (RuleShape(name, op, shapes, maxSeqLen), shapes[op.x]);
      |r| == op.axis + 1 && r[..op.axis] == s[..op.axis] && Product(r) == Product(s) && r[op.axis] == Product(s[op.axis..])
  {
    FlattenKeepsCount(shapes[op.x], op.axis);
  }

  // ----- dropped and inserted dimensions

  /** How many of the positions below `i` are not dropped. */
  ghost function Rank(axes: seq<nat>, i: nat): nat { |set j: nat | j < i && j !in axes| }

  lemma {:induction false} RankNext(axes: seq<nat>, i: nat)
    ensures Rank(axes, i + 1) == Rank(axes, i) + if i in axes then 0 else 1
  {
    var below, upTo := set j: nat | j < i && j !in axes, set j: nat | j < i + 1 && j !in axes;
    assert upTo == below + if i in axes then {} else {i};
  }

  lemma {:induction false} RankGrows(axes: seq<nat>, i: nat, n: nat)
    requires i <= n
    ensures Rank(axes, i) <= Rank(axes, n)
    decreases n
  {
    if i < n { RankGrows(axes, i, n - 1); RankNext(axes, n - 1); }
  }

  /** The dimensions that are not dropped, in their order and no others. */
  ghost predicate Drops(r: Shape, s: Shape, axes: seq<nat>) {
    && |r| == Rank(axes, |s|)
    && forall i: nat | i < |s| && i !in axes :: Rank(axes, i) < |r| && r[Rank(axes, i)] == s[i]
  }

  lemma {:induction false} KeptDrops(s: Shape, axes: seq<nat>)
    ensures Drops(Kept(s, axes), s, axes)
  {
    if s == [] {
      assert (set j: nat | j < 0 && j !in axes) == {};
    } else {
      var n := |s| - 1;
      KeptDrops(s[..n], axes);
      assert s == s[..n] + [s[n]];
      DropsNext(Kept(s[..n], axes), s[..n], s[n], axes);
    }
  }

  lemma {:induction false} DropsNext(r: Shape, s: Shape, last: nat, axes: seq<nat>)
    requires Drops(r, s, axes)
    ensures Drops(r + if |s| in axes then [] else [last], s + [last], axes)
  {
    RankNext(axes, |s|);
    var more := r + if |s| in axes then [] else [last];
    forall i: nat | i < |s| + 1 && i !in axes ensures Rank(axes, i) < |more| && more[Rank(axes, i)] == (s + [last])[i] {
      if i < |s| { assert r[Rank(axes, i)] == s[i]; }
    }
  }

  /** Reduced dimensions become 1 or are dropped. */
  lemma {:induction false} ReduceRule(name: string, op: MirOp, shapes: ShapeMap, maxSeqLen: nat)
    requires op.Reduce? && op.x in shapes
    ensures var (r, s) := (RuleShape(name, op, shapes, maxSeqLen), shapes[op.x]);
      if op.keepDims then |r| == |s| && forall i: nat | i < |s| :: r[i] == if i in op.axes then 1 else s[i]
      else Drops(r, s, op.axes)
  {
    KeptDrops(shapes[op.x], op.axes);
  }

  lemma {:induction false} SqueezeRule(name: string, op: MirOp, shapes: ShapeMap, maxSeqLen: nat)
    requires op.Squeeze? && op.x in shapes && Distinct(op.axes)
    ensures Drops(RuleShape(name, op, shapes, maxSeqLen), shapes[op.x], op.axes)
  {
    assert RuleShape(name, op, shapes, maxSeqLen) == SqueezeShape(shapes[op.x], op.axes);
    SqueezeDrops(shapes[op.x], op.axes);
  }

  lemma {:induction false} SqueezeDrops(s: Shape, axes: seq<nat>)
    requires Distinct(axes)
    ensures Drops(SqueezeShape(s, axes), s, axes)
  {
    SqueezeIsReduce(s, axes);
    KeptDrops(s, axes);
  }

  /** The inserted positions hold 1, and without them the shape is the operand's. */
  lemma {:induction false} ExpandRule(name: string, op: MirOp, shapes: ShapeMap, maxSeqLen: nat)
    requires op.ExpandDims? && op.x in shapes && Distinct(op.axes)
    requires forall a | a in op.axes :: a < |shapes[op.x]| + |op.axes|
    ensures var (r, s) := (RuleShape(name, op, shapes, maxSeqLen), shapes[op.x]);
      |r| == |s| + |op.axes| && (forall a | a in op.axes :: r[a] == 1) && Drops(s, r, op.axes)
  {
    Expanded(shapes[op.x], op.axes);
  }

  lemma {:induction false} Expanded(s: Shape, axes: seq<nat>)
    requires Distinct(axes) && forall a | a in axes :: a < |s| + |axes|
    ensures var r := ExpandDimsShape(s, axes);
      |r| == |s| + |axes| && (forall a | a in axes :: r[a] == 1) && Drops(s, r, axes)
  {
    AxesArePositions(s, axes);
    ExpandedOnes(s, SortAxes(axes));
    SameAxes(axes);
    ExpandSqueeze(s, axes);
    SqueezeIsReduce(ExpandDimsShape(s, axes), axes);
    KeptDrops(ExpandDimsShape(s, axes), axes);
  }

  lemma {:induction false} SameAxes(axes: seq<nat>)
    ensures |SortAxes(axes)| == |axes| && forall a :: a in SortAxes(axes) <==> a in axes
  {
    SortAxesSorts(axes);
    forall a ensures a in SortAxes(axes) <==> a in axes { assert a in multiset(SortAxes(axes)) <==> a in multiset(axes); }
  }

  lemma {:induction false} AxesArePositions(s: Shape, axes: seq<nat>)
    requires Distinct(axes) && forall a | a in axes :: a < |s| + |axes|
    ensures forall i, j :: 0 <= i < j < |SortAxes(axes)| ==> SortAxes(axes)[i] < SortAxes(axes)[j]
    ensures OutputPositions(SortAxes(axes), |s|)
  {
    var sorted := SortAxes(axes);
    SortAxesSorts(axes);
    SortedDistinct(axes, sorted);
    SameAxes(axes);
    SortedPositions(sorted, |s| + |sorted|, |sorted|);
  }

  /** Strictly ascending positions below `n` leave room for those that follow. */
  lemma {:induction false} SortedPositions(sorted: seq<nat>, n: nat, k: nat)
    requires forall i, j :: 0 <= i < j < |sorted| ==> sorted[i] < sorted[j]
    requires forall a | a in sorted :: a < n
    requires k <= |sorted| <= n
    ensures forall j | |sorted| - k <= j < |sorted| :: sorted[j] <= n - |sorted| + j
  {
    if k > 0 {
      SortedPositions(sorted, n, k - 1);
      var j := |sorted| - k;
      assert sorted[j] in sorted;
      if k > 1 { assert sorted[j] < sorted[j + 1]; }
    }
  }

  lemma {:induction false} ExpandedOnes(s: Shape, sorted: seq<nat>)
    requires forall i, j :: 0 <= i < j < |sorted| ==> sorted[i] < sorted[j]
    requires OutputPositions(sorted, |s|)
    ensures |ExpandSorted(s, sorted)| == |s| + |sorted|
    ensures forall j | 0 <= j < |sorted| :: sorted[j] < |s| + |sorted| && ExpandSorted(s, sorted)[sorted[j]] == 1
  {
    ExpandLength(s, sorted);
    if sorted != [] {
      var init, last := sorted[..|sorted| - 1], sorted[|sorted| - 1];
      forall j | 0 <= j < |init| ensures init[j] <= |s| + j { assert sorted[j] == init[j]; }
      ExpandedOnes(s, init);
      forall j | 0 <= j < |sorted| ensures sorted[j] < |s| + |sorted| && ExpandSorted(s, sorted)[sorted[j]] == 1 {
        if j < |init| { assert init[j] == sorted[j] < last; }
      }
    }
  }

  // ----- slices

  ghost predicate Set(mask: seq<bool>, i: nat) { i < |mask| && mask[i] }

  ghost function Dim(x: Shape, i: nat): nat { if i < |x| then x[i] else 0 }

  /** An index that a slice with this stride selects: unless masked, it is not before the begin and
      it is before the end, either of which may be counted from the end of the dimension; and it is
      a whole number of strides after the first one. */
  ghost predicate Picks(x: Shape, op: MirOp, i: nat, stride: nat, p: nat)
    requires op.SliceByIndex? && i < |op.begin| && (i < |op.end| || Set(op.endMask, i)) && stride > 0
  {
    && p < Dim(x, i)
    && (Set(op.beginMask, i) || p >= if op.begin[i] < 0 then Dim(x, i) + op.begin[i] else op.begin[i])
    && (Set(op.endMask, i) || p < if op.end[i] < 0 then Dim(x, i) + op.end[i] else op.end[i])
    && (p - FirstIndex(x, op, i)) % stride == 0
  }

  /** The end of a slice, at least 0. */
  ghost function Stop(x: Shape, op: MirOp, i: nat): nat
    requires op.SliceByIndex? && (i < |op.end| || Set(op.endMask, i))
  {
    if Set(op.endMask, i) then Dim(x, i)
    else if op.end[i] >= 0 then op.end[i]
    else if Dim(x, i) > -op.end[i] then Dim(x, i) + op.end[i]
    else 0
  }

  /** An inferred slice dimension is the number of indices selected exactly when nothing lies
      between begin and end, or the begin is not counted from the end, the end is within the
      dimension, and the stride does not skip. */
  lemma {:induction false} SliceDimCountsIndices(x: Shape, op: MirOp, i: nat, stride: nat)
    requires op.SliceByIndex? && i < |op.begin| && (i < |op.end| || Set(op.endMask, i)) && stride > 0
    ensures SliceDim(x, op, i) + (if Set(op.beginMask, i) || op.begin[i] < 0 then 0 else op.begin[i]) == Stop(x, op, i)
            || (SliceDim(x, op, i) == 0 && !Set(op.beginMask, i) && Stop(x, op, i) < op.begin[i])
    ensures var fromStart := Set(op.beginMask, i) || op.begin[i] >= 0;
            var begin := if Set(op.beginMask, i) || op.begin[i] < 0 then 0 else op.begin[i];
            SliceDim(x, op, i) == |set p: nat | p < Dim(x, i) && Picks(x, op, i, stride, p)|
            <==> || Stop(x, op, i) <= begin
                 || (&& (fromStart || Dim(x, i) + op.begin[i] <= 0) && Stop(x, op, i) <= Dim(x, i)
                     && (stride == 1 || Stop(x, op, i) == begin + 1))
  {
    var first, end := FirstIndex(x, op, i), SliceEnd(x, op, i);
    SliceDimCounts(x, op, i, stride);
    assert end == Stop(x, op, i);
    assert (set p: nat | p < Dim(x, i) && Picks(x, op, i, stride, p)) == SelectedIndices(Dim(x, i), first, end, stride);
  }

  /** A slice has one dimension for each begin, in order, without those the mask squeezes. */
  lemma {:induction false} SliceRule(name: string, op: MirOp, shapes: ShapeMap, maxSeqLen: nat, axes: seq<nat>)
    requires op.SliceByIndex? && op.x in shapes && SliceInRange(op)
    requires forall i: nat :: i in axes <==> Set(op.squeezeMask, i)
    ensures var dims := seq(|op.begin|, i requires 0 <= i < |op.begin| => SliceDim(shapes[op.x], op, i));
            Drops(RuleShape(name, op, shapes, maxSeqLen), dims, axes)
  {
    var dims: Shape := seq(|op.begin|, i requires 0 <= i < |op.begin| => SliceDim(shapes[op.x], op, i));
    SliceIsDims(name, op, shapes, maxSeqLen, dims);
    SqueezedDrops(dims, op.squeezeMask, axes);
  }

  lemma {:induction false} SliceIsDims(name: string, op: MirOp, shapes: ShapeMap, maxSeqLen: nat, dims: Shape)
    requires op.SliceByIndex? && op.x in shapes && SliceInRange(op)
    requires dims == seq(|op.begin|, i requires 0 <= i < |op.begin| => SliceDim(shapes[op.x], op, i))
    ensures RuleShape(name, op, shapes, maxSeqLen) == if op.squeezeMask != [] then NotSqueezed(dims, op.squeezeMask) else dims
  {
    assert RuleShape(name, op, shapes, maxSeqLen) == SliceShape(shapes[op.x], op);
  }

  lemma {:induction false} SqueezedDrops(dims: Shape, mask: seq<bool>, axes: seq<nat>)
    requires forall i: nat :: i in axes <==> Set(mask, i)
    ensures Drops(if mask != [] then NotSqueezed(dims, mask) else dims, dims, axes)
  {
    SqueezedIsKept(dims, mask, axes);
    KeptDrops(dims, axes);
    if mask == [] {
      KeptDepends(dims, axes, []);
      KeptAll(dims);
    }
  }

  lemma {:induction false} SqueezedIsKept(s: Shape, mask: seq<bool>, axes: seq<nat>)
    requires forall i: nat :: i in axes <==> Set(mask, i)
    ensures NotSqueezed(s, mask) == Kept(s, axes)
  {
    if s != [] {
      SqueezedIsKept(s[..|s| - 1], mask, axes);
      assert |s| - 1 in axes <==> Set(mask, |s| - 1);
    }
  }

  // ----- convolutions

  /** The element that tap `j` of the window at `p` reads. */
  ghost function Tap(p: nat, j: nat, stride: nat, dilation: nat): nat { p * stride + dilation * j }

  /** Every tap of the window lies in the padded input; a kernel has at least one. */
  ghost predicate TapsFit(p: nat, size: nat, stride: nat, dilation: nat, padded: nat) {
    forall j: nat | j == 0 || j < size :: Tap(p, j, stride, dilation) < padded
  }

  ghost function WindowsThatFit(size: nat, stride: nat, dilation: nat, padded: nat): set<nat> {
    set p: nat | p < padded && TapsFit(p, size, stride, dilation, padded)
  }

  lemma {:induction false} LastTapDecides(p: nat, size: nat, stride: nat, dilation: nat, padded: nat)
    ensures TapsFit(p, size, stride, dilation, padded) <==> p * stride + (dilation * Minus(size, 1) + 1) <= padded
  {
    var last := Minus(size, 1);
    if p * stride + (dilation * last + 1) <= padded {
      forall j: nat | j == 0 || j < size ensures Tap(p, j, stride, dilation) < padded { MulMonotone(dilation, dilation, j, last); }
    } else {
      assert Tap(p, last, stride, dilation) >= padded;
    }
  }

  lemma {:induction false} SameWindows(size: nat, stride: nat, dilation: nat, padded: nat)
    requires stride > 0
    ensures WindowsThatFit(size, stride, dilation, padded) == Windows(padded, dilation * Minus(size, 1) + 1, stride)
  {
    forall p: nat
      ensures p in WindowsThatFit(size, stride, dilation, padded) <==> p in Windows(padded, dilation * Minus(size, 1) + 1, stride)
    {
      LastTapDecides(p, size, stride, dilation, padded);
      MulMonotone(p, p, 1, stride);
    }
  }

  /** Parameter `i`, at least 1, and 1 where there is none. */
  ghost function StepAt(steps: seq<nat>, i: nat): nat { if i < |steps| && steps[i] > 0 then steps[i] else 1 }

  ghost function SizeAt(s: Shape, i: nat): nat { if 2 + i < |s| then s[2 + i] else 1 }

  /** What comes before the elements of axis `i`, and what comes after them if there are amounts for
      all axes. */
  ghost function Around(pads: seq<nat>, rank: nat, i: nat): nat
    requires i < rank
  {
    (if 2 * i < |pads| then pads[2 * i] else 0) + (if 2 * rank <= |pads| then pads[2 * i + 1] else 0)
  }

  /** A convolution keeps the batch, has the kernel's channels, and along each axis, one for each
      stride, as many elements as windows fit, exactly when one fits or the input is empty but not
      both; an empty input gives none, and a kernel that fits nowhere in another one gives 1. */
  ghost predicate Convolves(r: Shape, input: Shape, weight: Shape, strides: seq<nat>, pads: seq<nat>, dilations: seq<nat>, i: nat)
    requires i < if strides == [] then 1 else |strides|
  {
    var rank := if strides == [] then 1 else |strides|;
    var lead := if input == [] then 1 else 2;
    var padded := SizeAt(input, i) + Around(pads, rank, i);
    var (size, stride, dilation) := (SizeAt(weight, i), StepAt(strides, i), StepAt(dilations, i));
    && |r| == lead + rank && (input != [] ==> r[0] == input[0])
    && r[lead - 1] == (if weight == [] then 0 else weight[0])
    && (r[lead + i] == |WindowsThatFit(size, stride, dilation, padded)|
        <==> (SizeAt(input, i) > 0 <==> TapsFit(0, size, stride, dilation, padded)))
    && (SizeAt(input, i) == 0 ==> r[lead + i] == 0)
    && (SizeAt(input, i) > 0 && !TapsFit(0, size, stride, dilation, padded) ==> r[lead + i] == 1)
  }

  lemma {:induction false} ConvShapeConvolves(input: Shape, weight: Shape, strides: seq<nat>, pads: seq<nat>, dilations: seq<nat>, i: nat)
    requires i < if strides == [] then 1 else |strides|
    ensures Convolves(ConvShape(input, weight, strides, pads, dilations), input, weight, strides, pads, dilations, i)
  {
    var rank := if strides == [] then 1 else |strides|;
    var padded := SizeAt(input, i) + Around(pads, rank, i);
    var (size, stride, dilation) := (SizeAt(weight, i), StepAt(strides, i), StepAt(dilations, i));
    ConvDimCounts(input, weight, strides, pads, dilations, i);
    assert padded == SpatialDim(input, i) + ConvPad(pads, Max(|strides|, 1), i);
    assert EffectiveKernel(weight, dilations, i) == dilation * Minus(size, 1) + 1;
    SameWindows(size, stride, dilation, padded);
    LastTapDecides(0, size, stride, dilation, padded);
  }

  lemma {:induction false} ConvRule(name: string, op: MirOp, shapes: ShapeMap, maxSeqLen: nat, i: nat)
    requires op.Conv? && op.x in shapes && op.kernel in shapes
    requires i < if op.strides == [] then 1 else |op.strides|
    ensures Convolves(RuleShape(name, op, shapes, maxSeqLen), shapes[op.x], shapes[op.kernel], op.strides, op.padAmounts, op.dilations, i)
  {
    ConvShapeConvolves(shapes[op.x], shapes[op.kernel], op.strides, op.padAmounts, op.dilations, i);
  }

  /** A kernel of 3 whose taps are 2 apart fits 6 times into 10 elements. */
  lemma {:induction false} DilatedExample()
    ensures |WindowsThatFit(3, 1, 2, 10)| == 6
    ensures ConvDim([1, 1, 10], [1, 1, 3], [1], [0, 0], [2], 0) == 6
  {
    SameWindows(3, 1, 2, 10);
    WindowCount(10, 5, 1);
    DilatedDim();
  }

  lemma {:induction false} DilatedDim()
    ensures ConvDim([1, 1, 10], [1, 1, 3], [1], [0, 0], [2], 0) == 6
  {
    assert SpatialDim([1, 1, 10], 0) == 10;
    assert EffectiveKernel([1, 1, 3], [2], 0) == 5;
    assert ConvPad([0, 0], 1, 0) == 0;
  }

  // ----- failures

  /** Whose shape is missing: an operand of the node, by its name. */
  ghost predicate Lacks(op: MirOp, shapes: ShapeMap, id: string) {
    (id in ShapeRefs(op) && id !in shapes) || ((op.Concat? || op.Stack?) && op.values == [] && id == "")
  }

  /** A failure names its node and its cause: a guess by the node's name or marker, an operation
      without a rule, a linear or a constant of unknown shape, or an operand whose shape is missing. */
  lemma {:induction false} FailureNames(name: string, op: MirOp, shapes: ShapeMap, maxSeqLen: nat)
    ensures match OutputShapeFallible(name, op, [], shapes, maxSeqLen)
      case Ok(_) => !op.Other? && !Contains(name, "input_ids")
      case Err(NameHeuristicUsed(who, s)) =>
        who == name && s == [1, maxSeqLen] && (Contains(name, "input_ids") || (op.Identity? && op.x == "__placeholder__"))
      case Err(UnknownOp(who, tag)) => op.Other? && who == name && tag == op.tag
      case Err(Indeterminate(who)) => who == name && ((op.Linear? && op.x !in shapes) || (op.Const? && name !in shapes))
      case Err(MissingInputShape(who, id)) => who == name && Lacks(op, shapes, id)
  {
    if !Contains(name, "input_ids") {
      if Restructures(op) {
        RestructuringFails(name, op, shapes, maxSeqLen);
      } else if SeveralOperands(op) || ManyOperands(op) {
        CombiningFails(name, op, shapes, maxSeqLen);
      }
    }
  }

  lemma {:induction false} RestructuringFails(name: string, op: MirOp, shapes: ShapeMap, maxSeqLen: nat)
    requires Restructures(op)
    ensures FallibleRule(name, op, shapes, maxSeqLen).Err? <==> op.x !in shapes
    ensures op.x !in shapes ==> FallibleRule(name, op, shapes, maxSeqLen) == Err(MissingInputShape(name, op.x))
    ensures ShapeRefs(op) == {op.x}
  {
  }

  lemma {:induction false} CombiningFails(name: string, op: MirOp, shapes: ShapeMap, maxSeqLen: nat)
    requires SeveralOperands(op) || ManyOperands(op)
    ensures FallibleRule(name, op, shapes, maxSeqLen).Err? ==>
      var e := FallibleRule(name, op, shapes, maxSeqLen).error;
      e.MissingInputShape? && e.nodeName == name && Lacks(op, shapes, e.inputId)
  {
  }
}
