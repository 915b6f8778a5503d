/** Element counts along a graph: which rules keep them, and how the others change them. */
module ElementCounts {
  import opened Wrappers
  import opened Arithmetic
  import opened ShapeOps
  import opened ShapeInference

  lemma {:induction false} ProductConcat(a: Shape, b: Shape)
    ensures Product(a + b) == Product(a) * Product(b)
  {
    if a == [] {
      assert a + b == b;
    } else {
      assert (a + b)[1..] == a[1..] + b;
      ProductConcat(a[1..], b);
      Assoc(a[0], Product(a[1..]), Product(b));
    }
  }

  lemma {:induction false} ProductSplit(s: Shape, i: nat)
    requires i < |s|
    ensures Product(s) == Product(s[..i]) * s[i] * Product(s[i + 1..])
  {
    assert s == s[..i] + [s[i]] + s[i + 1..];
    ProductConcat(s[..i] + [s[i]], s[i + 1..]);
    ProductConcat(s[..i], [s[i]]);
    ProductSingle(s[i]);
  }

  lemma {:induction false} ProductSingle(d: nat)
    ensures Product([d]) == d
  {
    assert Product([]) == 1;
  }

  lemma {:induction false} ProductUpdate(s: Shape, i: nat, d: nat)
    requires i < |s|
    ensures Product(s[i := d]) == Product(s[..i]) * d * Product(s[i + 1..])
  {
    ProductSplit(s[i := d], i);
    assert s[i := d][..i] == s[..i] && s[i := d][i + 1..] == s[i + 1..];
  }

  // ----- rules that keep the count

  lemma {:induction false} InsertKeepsCount(s: Shape, at: nat)
    ensures Product(InsertAt(s, at, 1)) == Product(s)
  {
    var p := if at <= |s| then at else |s|;
    assert s == s[..p] + s[p..];
    ProductConcat(s[..p], s[p..]);
    ProductConcat(s[..p] + [1], s[p..]);
    ProductConcat(s[..p], [1]);
    ProductSingle(1);
  }

  lemma {:induction false} ExpandKeepsCount(s: Shape, sorted: seq<nat>)
    ensures Product(ExpandSorted(s, sorted)) == Product(s)
  {
    if sorted != [] {
      ExpandKeepsCount(s, sorted[..|sorted| - 1]);
      InsertKeepsCount(ExpandSorted(s, sorted[..|sorted| - 1]), sorted[|sorted| - 1]);
    }
  }

  /** Dropping dimensions of 1 keeps the count. */
  lemma {:induction false} KeptKeepsCount(s: Shape, axes: seq<nat>)
    requires forall a | a in axes && a < |s| :: s[a] == 1
    ensures Product(Kept(s, axes)) == Product(s)
  {
    if s != [] {
      var init, last := s[..|s| - 1], s[|s| - 1];
      assert s == init + [last];
      KeptKeepsCount(init, axes);
      ProductConcat(init, [last]);
      ProductConcat(Kept(init, axes), [last]);
      ProductSingle(last);
      assert Kept(init, axes) + [] == Kept(init, axes);
    }
  }

  /** For distinct axes it is enough that they name dimensions of 1; `SqueezeKeepsCountIff` has no
      such restriction. */
  lemma {:induction false} SqueezeKeepsCount(s: Shape, axes: seq<nat>)
    requires Distinct(axes)
    requires forall a | a in axes && a < |s| :: s[a] == 1
    ensures Product(SqueezeShape(s, axes)) == Product(s)
  {
    SqueezeIsReduce(s, axes);
    KeptKeepsCount(s, axes);
  }

  /** All dimensions removed, the last axis first, are 1 when their turn comes. */
  predicate RemovesOnes(s: Shape, sorted: seq<nat>)
    decreases |sorted|
  {
    sorted == []
    || (var last := sorted[|sorted| - 1];
        (last < |s| ==> s[last] == 1) && RemovesOnes(RemoveAt(s, last), sorted[..|sorted| - 1]))
  }

  lemma {:induction false} RemoveCount(s: Shape, at: nat)
    requires at < |s|
    ensures Product(s) == s[at] * Product(RemoveAt(s, at))
    ensures Positive(s) ==> Positive(RemoveAt(s, at))
  {
    ProductSplit(s, at);
    ProductConcat(s[..at], s[at + 1..]);
    MulSwap(Product(s[..at]), Product(s[at + 1..]), s[at]);
  }

  lemma {:induction false} SqueezeCount(s: Shape, sorted: seq<nat>)
    ensures RemovesOnes(s, sorted) ==> Product(SqueezeSorted(s, sorted)) == Product(s)
    ensures Positive(s) ==> 0 < Product(SqueezeSorted(s, sorted)) <= Product(s)
    ensures Positive(s) && !RemovesOnes(s, sorted) ==> Product(SqueezeSorted(s, sorted)) < Product(s)
    decreases |sorted|
  {
    if Positive(s) { PositiveProduct(s); }
    if sorted != [] {
      var last := sorted[|sorted| - 1];
      SqueezeCount(RemoveAt(s, last), sorted[..|sorted| - 1]);
      if last < |s| {
        RemoveCount(s, last);
        if Positive(s) { PositiveProduct(RemoveAt(s, last)); }
        if s[last] > 1 { MulMonotone(2, s[last], Product(RemoveAt(s, last)), Product(RemoveAt(s, last))); }
      }
    }
  }

  lemma {:induction false} PositiveProduct(s: Shape)
    requires Positive(s)
    ensures Product(s) > 0
  {
    if s != [] {
      PositiveProduct(s[1..]);
      MulMonotone(1, s[0], 1, Product(s[1..]));
    }
  }

  /** Whatever the axes, repeated ones included: a positive shape keeps its count exactly when
      every dimension removed is 1. */
  lemma {:induction false} SqueezeKeepsCountIff(s: Shape, axes: seq<nat>)
    ensures RemovesOnes(s, SortAxes(axes)) ==> Product(SqueezeShape(s, axes)) == Product(s)
    ensures Positive(s) ==> (Product(SqueezeShape(s, axes)) == Product(s) <==> RemovesOnes(s, SortAxes(axes)))
  {
    SqueezeCount(s, SortAxes(axes));
  }

  /** Reducing with the dimensions kept and squeezing them afterwards is reducing without. */
  lemma {:induction false} SqueezeUndoesKeepDims(s: Shape, axes: seq<nat>)
    requires Distinct(axes)
    ensures SqueezeShape(ReduceShape(s, axes, true), axes) == ReduceShape(s, axes, false)
    ensures Product(ReduceShape(s, axes, true)) == Product(ReduceShape(s, axes, false))
  {
    SqueezeIsReduce(ReduceShape(s, axes, true), axes);
    KeptIgnoresAxes(s, axes);
    KeptKeepsCount(ReduceShape(s, axes, true), axes);
  }

  lemma {:induction false} KeptIgnoresAxes(s: Shape, axes: seq<nat>)
    ensures Kept(ReduceShape(s, axes, true), axes) == Kept(s, axes)
  {
    if s != [] {
      KeptIgnoresAxes(s[..|s| - 1], axes);
      assert ReduceShape(s, axes, true)[..|s| - 1] == ReduceShape(s[..|s| - 1], axes, true);
    }
  }

  /** A shape read as one of rank `n`, missing dimensions being 1. */
  function Extended(s: Shape, n: nat): Shape { seq(n, i requires 0 <= i => GetOr(s, i, 1)) }

  lemma {:induction false} ExtendedCount(s: Shape, n: nat)
    requires |s| <= n
    ensures Product(Extended(s, n)) == Product(s)
    decreases n
  {
    if n == |s| {
      assert Extended(s, n) == s;
    } else {
      ExtendedCount(s, n - 1);
      assert Extended(s, n) == Extended(s, n - 1) + [1];
      ProductConcat(Extended(s, n - 1), [1]);
      ProductSingle(1);
    }
  }

  lemma {:induction false} PointwiseCount(s: Shape, t: Shape, both: Shape)
    requires |s| == |t| == |both| && forall i | 0 <= i < |s| :: both[i] == s[i] * t[i]
    ensures Product(both) == Product(s) * Product(t)
  {
    if s != [] {
      var n := |s| - 1;
      PointwiseCount(s[..n], t[..n], both[..n]);
      assert s == s[..n] + [s[n]] && t == t[..n] + [t[n]] && both == both[..n] + [both[n]];
      ProductConcat(s[..n], [s[n]]);
      ProductConcat(t[..n], [t[n]]);
      ProductConcat(both[..n], [both[n]]);
      ProductSingle(s[n]);
      ProductSingle(t[n]);
      ProductSingle(both[n]);
      MulInterchange(Product(s[..n]), Product(t[..n]), s[n], t[n]);
    }
  }

  lemma {:induction false} MulInterchange(a: nat, b: nat, c: nat, d: nat)
    ensures (a * b) * (c * d) == (a * c) * (b * d)
  {
    Assoc(a * b, c, d);
    MulSwap(a, b, c);
    Assoc(a * c, b, d);
  }

  /** Tiling multiplies the element count by the repetitions, whatever the ranks. */
  lemma {:induction false} TileMultipliesCount(s: Shape, reps: seq<nat>)
    ensures Product(TileShape(s, reps)) == Product(s) * Product(reps)
  {
    var n := Max(|s|, |reps|);
    ExtendedCount(s, n);
    ExtendedCount(reps, n);
    PointwiseCount(Extended(s, n), Extended(reps, n), TileShape(s, reps));
  }

  lemma {:induction false} FlattenKeepsCount(s: Shape, axis: nat)
    requires axis <= |s|
    ensures Product(Flatten2dShape(s, axis)) == Product(s)
  {
    assert s == s[..axis] + s[axis..];
    ProductConcat(s[..axis], s[axis..]);
    ProductConcat(s[..axis], [Product(s[axis..])]);
    ProductSingle(Product(s[axis..]));
  }

  /** Every index of a shape of rank `n` occurs, and none twice. */
  ghost predicate IsPermutation(perm: seq<nat>, n: nat) {
    && |perm| == n && Distinct(perm)
    && (forall k: nat :: k in perm <==> k < n)
  }

  lemma {:induction false} TransposeKeepsCount(s: Shape, perm: seq<nat>)
    requires IsPermutation(perm, |s|)
    ensures Product(TransposeShape(s, perm)) == Product(s)
  {
    if s == [] {
      assert TransposeShape(s, perm) == [];
    } else {
      var n := |s| - 1;
      assert n in perm;
      var j :| 0 <= j < |perm| && perm[j] == n;
      var rest, t := perm[..j] + perm[j + 1..], TransposeShape(s, perm);
      assert IsPermutation(rest, n) by { RemoveLargest(perm, n, j); }
      TransposeKeepsCount(s[..n], rest);
      assert TransposeShape(s[..n], rest) == t[..j] + t[j + 1..];
      ProductConcat(t[..j], t[j + 1..]);
      ProductSplit(t, j);
      ProductSplit(s, n);
      assert s[n + 1..] == [] && t[j] == s[n];
      MulSwap(Product(t[..j]), s[n], Product(t[j + 1..]));
    }
  }

  lemma {:induction false} RemoveLargest(perm: seq<nat>, n: nat, j: nat)
    requires IsPermutation(perm, n + 1)
    requires j < |perm| && perm[j] == n
    ensures IsPermutation(perm[..j] + perm[j + 1..], n)
  {
    var rest := perm[..j] + perm[j + 1..];
    forall k: nat ensures k in rest <==> k < n {
      if k in rest { RestIsOther(perm, j, k); }
      if k < n { SmallerStays(perm, n, j, k); }
    }
  }

  lemma {:induction false} RestIsOther(perm: seq<nat>, j: nat, k: nat)
    requires Distinct(perm) && j < |perm| && k in perm[..j] + perm[j + 1..]
    ensures k in perm && k != perm[j]
  {
    var i :| 0 <= i < |perm| - 1 && (perm[..j] + perm[j + 1..])[i] == k;
    assert perm[if i < j then i else i + 1] == k;
  }

  lemma {:induction false} SmallerStays(perm: seq<nat>, n: nat, j: nat, k: nat)
    requires j < |perm| && perm[j] == n && k in perm && k != n
    ensures k in perm[..j] + perm[j + 1..]
  {
    var i :| 0 <= i < |perm| && perm[i] == k;
    assert (perm[..j] + perm[j + 1..])[if i < j then i else i - 1] == k;
  }

  // ----- rules that change the count

  function SumOfCounts(shapes: seq<Shape>): nat {
    if shapes == [] then 0 else SumOfCounts(shapes[..|shapes| - 1]) + Product(shapes[|shapes| - 1])
  }

  /** Shapes that agree everywhere but along `axis`. */
  ghost predicate AgreeOffAxis(shapes: seq<Shape>, axis: nat) {
    forall s | s in shapes :: SameOffAxis(s, shapes[0], axis)
  }

  ghost predicate SameOffAxis(s: Shape, t: Shape, axis: nat) {
    |s| == |t| && axis < |s| && s[..axis] == t[..axis] && s[axis + 1..] == t[axis + 1..]
  }

  function Somes(shapes: seq<Shape>): seq<Option<Shape>> {
    seq(|shapes|, i requires 0 <= i < |shapes| => Some(shapes[i]))
  }

  /** Concatenating operands of known, agreeing shapes adds their counts. */
  lemma {:induction false} ConcatAddsCounts(shapes: seq<Shape>, axis: nat)
    requires shapes != [] && AgreeOffAxis(shapes, axis)
    ensures Product(ConcatShape(shapes[0], Somes(shapes), axis)) == SumOfCounts(shapes)
  {
    assert shapes[0] in shapes;
    var before, after := Product(shapes[0][..axis]), Product(shapes[0][axis + 1..]);
    ConcatTotals(shapes, axis, shapes[0]);
    ProductUpdate(shapes[0], axis, AxisTotal(Somes(shapes), axis));
  }

  lemma {:induction false} ConcatTotals(shapes: seq<Shape>, axis: nat, first: Shape)
    requires forall s | s in shapes :: SameOffAxis(s, first, axis)
    requires axis < |first|
    ensures Product(first[..axis]) * AxisTotal(Somes(shapes), axis) * Product(first[axis + 1..]) == SumOfCounts(shapes)
  {
    if shapes != [] {
      var init, last := shapes[..|shapes| - 1], shapes[|shapes| - 1];
      ConcatTotals(init, axis, first);
      assert Somes(shapes)[..|shapes| - 1] == Somes(init);
      assert last in shapes;
      ProductSplit(last, axis);
      MulSpread(Product(first[..axis]), AxisTotal(Somes(init), axis), last[axis], Product(first[axis + 1..]));
    }
  }

  /** The shapes of the operands that are known. */
  function Recorded(shapes: seq<Shape>, known: seq<bool>): seq<Option<Shape>>
    requires |known| == |shapes|
  {
    seq(|shapes|, i requires 0 <= i < |shapes| => if known[i] then Some(shapes[i]) else None)
  }

  function KnownCounts(shapes: seq<Shape>, known: seq<bool>): nat
    requires |known| == |shapes|
  {
    if shapes == [] then 0
    else KnownCounts(shapes[..|shapes| - 1], known[..|shapes| - 1])
         + if known[|shapes| - 1] then Product(shapes[|shapes| - 1]) else 0
  }

  lemma {:induction false} RecordedTotals(shapes: seq<Shape>, known: seq<bool>, axis: nat, first: Shape)
    requires |known| == |shapes| && axis < |first|
    requires forall s | s in shapes :: SameOffAxis(s, first, axis)
    ensures Product(first[..axis]) * AxisTotal(Recorded(shapes, known), axis) * Product(first[axis + 1..]) == KnownCounts(shapes, known)
  {
    if shapes != [] {
      var n := |shapes| - 1;
      var init, last := Recorded(shapes[..n], known[..n]), shapes[n];
      RecordedTotals(shapes[..n], known[..n], axis, first);
      assert Recorded(shapes, known)[..n] == init && last in shapes;
      ProductSplit(last, axis);
      MulSpread(Product(first[..axis]), AxisTotal(init, axis), if known[n] then last[axis] else 0, Product(first[axis + 1..]));
    }
  }

  lemma {:induction false} KnownCountsAll(shapes: seq<Shape>, known: seq<bool>)
    requires |known| == |shapes|
    ensures KnownCounts(shapes, known) <= SumOfCounts(shapes)
    ensures KnownCounts(shapes, known) == SumOfCounts(shapes) <==> forall i | 0 <= i < |shapes| && !known[i] :: Product(shapes[i]) == 0
  {
    if shapes != [] {
      var n := |shapes| - 1;
      KnownCountsAll(shapes[..n], known[..n]);
      assert forall i | 0 <= i < n :: shapes[..n][i] == shapes[i] && known[..n][i] == known[i];
    }
  }

  /** Operands of unknown shape count as nothing, so the sum is right exactly if they hold nothing. */
  lemma {:induction false} ConcatOfUnknown(shapes: seq<Shape>, known: seq<bool>, axis: nat)
    requires shapes != [] && AgreeOffAxis(shapes, axis) && |known| == |shapes| && known[0]
    ensures Product(ConcatShape(shapes[0], Recorded(shapes, known), axis)) == SumOfCounts(shapes)
            <==> forall i | 0 <= i < |shapes| && !known[i] :: Product(shapes[i]) == 0
  {
    assert shapes[0] in shapes;
    RecordedTotals(shapes, known, axis, shapes[0]);
    ProductUpdate(shapes[0], axis, AxisTotal(Recorded(shapes, known), axis));
    KnownCountsAll(shapes, known);
  }

  /** Stacking multiplies the count of the first operand by the number of operands. */
  lemma {:induction false} StackMultipliesCount(first: Shape, axis: nat, count: nat)
    ensures Product(StackShape(first, axis, count)) == count * Product(first)
  {
    var p := if axis <= |first| then axis else |first|;
    assert first == first[..p] + first[p..];
    ProductConcat(first[..p], first[p..]);
    ProductConcat(first[..p] + [count], first[p..]);
    ProductConcat(first[..p], [count]);
    ProductSingle(count);
    MulSwap(Product(first[..p]), count, Product(first[p..]));
    MulSwap(Product(first[..p]), Product(first[p..]), count);
  }

  /** Gathering replaces one dimension by the whole index shape. */
  lemma {:induction false} GatherCount(x: Shape, indices: Shape, axis: nat)
    requires axis < |x|
    ensures Product(GatherShape(x, indices, axis)) * x[axis] == Product(x) * Product(indices)
  {
    ProductConcat(x[..axis] + indices, x[axis + 1..]);
    ProductConcat(x[..axis], indices);
    ProductSplit(x, axis);
    MulRotate(Product(x[..axis]), Product(indices), Product(x[axis + 1..]), x[axis]);
  }

  /** Concatenating the parts of a split gives the shape back exactly when the number of parts
      divides the dimension. */
  lemma {:induction false} ConcatUndoesSplit(x: Shape, axis: nat, parts: nat)
    requires axis < |x| && parts > 0
    ensures ConcatShape(SplitShape(x, axis, parts), seq(parts, _ => Some(SplitShape(x, axis, parts))), axis) == x
            <==> x[axis] % parts == 0
  {
    var part := SplitShape(x, axis, parts);
    EqualParts(part, axis, parts);
    var q, r := Quotient(x[axis], parts);
    var whole := ConcatShape(part, seq(parts, _ => Some(part)), axis);
    assert whole == x[axis := parts * q];
    assert x[axis := x[axis]] == x;
    assert whole[axis] == parts * q;
  }

  lemma {:induction false} EqualParts(part: Shape, axis: nat, count: nat)
    requires axis < |part|
    ensures AxisTotal(seq(count, _ => Some(part)), axis) == count * part[axis]
  {
    if count > 0 {
      var all: seq<Option<Shape>> := seq(count, _ => Some(part));
      assert all[..count - 1] == seq(count - 1, _ => Some(part));
      EqualParts(part, axis, count - 1);
      assert count * part[axis] == (count - 1) * part[axis] + part[axis];
    }
  }
}
