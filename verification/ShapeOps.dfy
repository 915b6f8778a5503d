/** Shape arithmetic shared by the lowering passes (`shape_ops.rs`). */
module ShapeOps {
  import opened Wrappers

  type Shape = seq<nat>

  function Max(a: nat, b: nat): nat { if a > b then a else b }

  ghost predicate Positive(s: Shape) { forall i :: 0 <= i < |s| ==> s[i] > 0 }

  /** `shape.get(i).copied().unwrap_or(default)` */
  function GetOr(s: Shape, i: nat, default: nat): nat {
    if i < |s| then s[i] else default
  }

  /** The number of elements. */
  function Product(s: Shape): nat {
    if s == [] then 1 else s[0] * Product(s[1..])
  }

  // ----- broadcasting

  /** Dimension `k`, counted from the right; missing dimensions are 1. */
  function DimAt(s: Shape, k: nat): nat {
    if k < |s| then s[|s| - 1 - k] else 1
  }

  predicate Compatible(x: nat, y: nat) { x == y || x == 1 || y == 1 }

  /** Dimension `i` of a shape right-aligned in rank `n`. */
  function Aligned(s: Shape, n: nat, i: nat): nat
    requires |s| <= n && i < n
  {
    if i < n - |s| then 1 else s[i - (n - |s|)]
  }

  function AlignedMax(a: Shape, b: Shape, n: nat, i: nat): nat
    requires |a| <= n && |b| <= n && i < n
  {
    Max(Aligned(a, n, i), Aligned(b, n, i))
  }

  /** The common shape of two operands, if they have one. */
  function Broadcast(a: Shape, b: Shape): Option<Shape> {
    var n := Max(|a|, |b|);
    if forall i | 0 <= i < n :: Compatible(Aligned(a, n, i), Aligned(b, n, i))
    then Some(seq(n, i requires 0 <= i < n => AlignedMax(a, b, n, i)))
    else None
  }

  method BroadcastShape(a: Shape, b: Shape) returns (r: Option<Shape>)
    ensures r == Broadcast(a, b)
  {
    var maxRank := Max(|a|, |b|);
    var result: Shape := [];
    for i := 0 to maxRank
      invariant |result| == i
      invariant forall j :: 0 <= j < i ==> Compatible(Aligned(a, maxRank, j), Aligned(b, maxRank, j))
      invariant forall j :: 0 <= j < i ==> result[j] == AlignedMax(a, b, maxRank, j)
    {
      var da := if i < maxRank - |a| then 1 else a[i - (maxRank - |a|)];
      var db := if i < maxRank - |b| then 1 else b[i - (maxRank - |b|)];
      if da != db && da != 1 && db != 1 {
        assert !Compatible(Aligned(a, maxRank, i), Aligned(b, maxRank, i));
        return None;
      }
      result := result + [Max(da, db)];
    }
    assert result == seq(maxRank, i requires 0 <= i < maxRank => AlignedMax(a, b, maxRank, i));
    return Some(result);
  }

  lemma {:induction false} BroadcastDims(a: Shape, b: Shape)
    ensures Broadcast(a, b).Some? <==> forall k: nat :: Compatible(DimAt(a, k), DimAt(b, k))
    ensures Broadcast(a, b).Some? ==>
      && |Broadcast(a, b).value| == Max(|a|, |b|)
      && forall k: nat :: DimAt(Broadcast(a, b).value, k) == Max(DimAt(a, k), DimAt(b, k))
  {
    var n := Max(|a|, |b|);
    forall k: nat | k < n
      ensures DimAt(a, k) == Aligned(a, n, n - 1 - k) && DimAt(b, k) == Aligned(b, n, n - 1 - k)
    {}
    if Broadcast(a, b).Some? {
      forall k: nat ensures Compatible(DimAt(a, k), DimAt(b, k)) {
        if k < n { assert Compatible(Aligned(a, n, n - 1 - k), Aligned(b, n, n - 1 - k)); }
      }
    }
    if forall k: nat :: Compatible(DimAt(a, k), DimAt(b, k)) {
      forall i | 0 <= i < n ensures Compatible(Aligned(a, n, i), Aligned(b, n, i)) {
        assert Compatible(DimAt(a, n - 1 - i), DimAt(b, n - 1 - i));
      }
    }
  }

  lemma {:induction false} SameDims(a: Shape, b: Shape)
    requires |a| == |b| && forall k: nat | k < |a| :: DimAt(a, k) == DimAt(b, k)
    ensures a == b
  {
    forall i | 0 <= i < |a| ensures a[i] == b[i] {
      assert DimAt(a, |a| - 1 - i) == DimAt(b, |a| - 1 - i);
    }
  }

  lemma {:induction false} BroadcastCommutes(a: Shape, b: Shape)
    ensures Broadcast(a, b) == Broadcast(b, a)
  {
    BroadcastDims(a, b);
    BroadcastDims(b, a);
    if Broadcast(a, b).Some? {
      assert Broadcast(b, a).Some? by {
        forall k: nat ensures Compatible(DimAt(b, k), DimAt(a, k)) { assert Compatible(DimAt(a, k), DimAt(b, k)); }
      }
      SameDims(Broadcast(a, b).value, Broadcast(b, a).value);
    } else {
      assert Broadcast(b, a).None? by {
        var k: nat :| !Compatible(DimAt(a, k), DimAt(b, k));
        assert !Compatible(DimAt(b, k), DimAt(a, k));
      }
    }
  }

  /** The empty shape is an identity exactly for shapes without a zero dimension: a zero
      against a missing dimension comes out as 1. */
  lemma {:induction false} BroadcastIdentity(a: Shape)
    ensures Broadcast(a, []) == Some(a) <==> Positive(a)
  {
    BroadcastDims(a, []);
    var r := Broadcast(a, []);
    assert r.Some?;
    if Positive(a) {
      SameDims(r.value, a);
    } else {
      var i :| 0 <= i < |a| && a[i] == 0;
      assert DimAt(a, |a| - 1 - i) == 0;
      assert DimAt(r.value, |a| - 1 - i) == 1;
    }
  }

  function Then(r: Option<Shape>, c: Shape): Option<Shape> {
    match r case None => None case Some(ab) => Broadcast(ab, c)
  }

  lemma {:induction false} PositiveDims(s: Shape)
    requires Positive(s)
    ensures forall k: nat :: DimAt(s, k) > 0
  {
  }

  /** A zero has been broadcast against a one, and a larger dimension follows. */
  predicate Mixed(x: nat, y: nat, z: nat) { x + y == 1 && z >= 2 }

  ghost predicate Mixes(a: Shape, b: Shape, c: Shape) {
    exists k: nat :: Mixed(DimAt(a, k), DimAt(b, k), DimAt(c, k))
  }

  predicate Steps(x: nat, y: nat, z: nat) { Compatible(x, y) && Compatible(Max(x, y), z) }

  /** Both steps together: when they are defined, and what they give. */
  lemma {:induction false} BothSteps(a: Shape, b: Shape, c: Shape)
    ensures Then(Broadcast(a, b), c).Some? <==> forall k: nat :: Steps(DimAt(a, k), DimAt(b, k), DimAt(c, k))
    ensures Then(Broadcast(a, b), c).Some? ==>
      && |Then(Broadcast(a, b), c).value| == Max(Max(|a|, |b|), |c|)
      && forall k: nat :: DimAt(Then(Broadcast(a, b), c).value, k) == Max(Max(DimAt(a, k), DimAt(b, k)), DimAt(c, k))
  {
    BroadcastDims(a, b);
    if Broadcast(a, b).Some? {
      var ab := Broadcast(a, b).value;
      BroadcastDims(ab, c);
      forall k: nat ensures Compatible(DimAt(ab, k), DimAt(c, k)) <==> Steps(DimAt(a, k), DimAt(b, k), DimAt(c, k)) {
        assert Compatible(DimAt(a, k), DimAt(b, k));
      }
    } else {
      var k: nat :| !Compatible(DimAt(a, k), DimAt(b, k));
      assert !Steps(DimAt(a, k), DimAt(b, k), DimAt(c, k));
    }
  }

  lemma {:induction false} BroadcastTwice(a: Shape, c: Shape)
    ensures Broadcast(a, a).Some?
    ensures Then(Broadcast(a, a), c).Some? <==> Broadcast(a, c).Some?
  {
    BroadcastDims(a, a);
    BothSteps(a, a, c);
    BroadcastDims(a, c);
    forall k: nat ensures Steps(DimAt(a, k), DimAt(a, k), DimAt(c, k)) <==> Compatible(DimAt(a, k), DimAt(c, k)) {}
  }

  /** Where one grouping is defined, the next one is too exactly if no zero is mixed in. */
  lemma {:induction false} NextGrouping(a: Shape, b: Shape, c: Shape)
    requires Then(Broadcast(a, b), c).Some?
    ensures Then(Broadcast(b, c), a).Some? <==> !Mixes(a, b, c)
    ensures Then(Broadcast(b, c), a).Some? ==> Then(Broadcast(b, c), a) == Then(Broadcast(a, b), c)
  {
    BothSteps(a, b, c);
    BothSteps(b, c, a);
    forall k: nat ensures Steps(DimAt(b, k), DimAt(c, k), DimAt(a, k)) <==> !Mixed(DimAt(a, k), DimAt(b, k), DimAt(c, k)) {
      assert Steps(DimAt(a, k), DimAt(b, k), DimAt(c, k));
    }
    if Then(Broadcast(b, c), a).Some? {
      SameDims(Then(Broadcast(a, b), c).value, Then(Broadcast(b, c), a).value);
    }
  }

  /** For all shapes: two groupings agree exactly when no defined one mixes a zero and a one
      before a larger dimension. */
  lemma {:induction false} GroupingsAgree(a: Shape, b: Shape, c: Shape)
    ensures Then(Broadcast(a, b), c) == Then(Broadcast(b, c), a) <==>
      && (Then(Broadcast(a, b), c).Some? ==> !Mixes(a, b, c))
      && (Then(Broadcast(b, c), a).Some? ==> !Mixes(b, c, a))
  {
    if Then(Broadcast(a, b), c).Some? {
      NextGrouping(a, b, c);
      if Then(Broadcast(b, c), a).Some? { PreviousGrouping(b, c, a); }
    } else if Then(Broadcast(b, c), a).Some? {
      PreviousGrouping(b, c, a);
    }
  }

  lemma {:induction false} PreviousGrouping(a: Shape, b: Shape, c: Shape)
    requires Then(Broadcast(a, b), c).Some?
    ensures Then(Broadcast(c, a), b).Some? <==> !Mixes(a, b, c)
  {
    BroadcastCommutes(a, b);
    BroadcastCommutes(c, a);
    NextGrouping(b, a, c);
    assert Mixes(a, b, c) <==> Mixes(b, a, c) by { MixesCommutes(a, b, c); }
  }

  lemma {:induction false} MixesCommutes(a: Shape, b: Shape, c: Shape)
    ensures Mixes(a, b, c) <==> Mixes(b, a, c)
  {
    forall k: nat ensures Mixed(DimAt(a, k), DimAt(b, k), DimAt(c, k)) <==> Mixed(DimAt(b, k), DimAt(a, k), DimAt(c, k)) {}
  }

  /** All three groupings, in any order of their operands, agree exactly when none that is defined
      mixes a zero and a one before a larger dimension. */
  lemma {:induction false} AllGroupingsAgree(a: Shape, b: Shape, c: Shape)
    ensures Then(Broadcast(a, b), c) == Then(Broadcast(b, c), a) == Then(Broadcast(c, a), b) <==>
      && (Then(Broadcast(a, b), c).Some? ==> !Mixes(a, b, c))
      && (Then(Broadcast(b, c), a).Some? ==> !Mixes(b, c, a))
      && (Then(Broadcast(c, a), b).Some? ==> !Mixes(c, a, b))
  {
    GroupingsAgree(a, b, c);
    GroupingsAgree(b, c, a);
  }

  /** On positive shapes the grouping does not matter, not even for being defined. */
  lemma {:induction false} BroadcastAssociates(a: Shape, b: Shape, c: Shape)
    requires Positive(a) && Positive(b) && Positive(c)
    ensures Then(Broadcast(a, b), c) == Then(Broadcast(b, c), a)
    ensures Then(Broadcast(a, b), c) == Then(Broadcast(b, a), c)
  {
    PositiveDims(a);
    PositiveDims(b);
    PositiveDims(c);
    GroupingsAgree(a, b, c);
    BroadcastCommutes(a, b);
  }

  /** A zero dimension breaks associativity. */
  lemma {:induction false} BroadcastZeroCounterexample()
    ensures Then(Broadcast([0], [1]), [5]) == Some([5])
    ensures Then(Broadcast([1], [5]), [0]) == None
  {
    BroadcastOne(0, 1);
    BroadcastOne(1, 5);
    BroadcastOne(5, 0);
  }

  lemma {:induction false} BroadcastOne(x: nat, y: nat)
    ensures Broadcast([x], [y]) == if Compatible(x, y) then Some([Max(x, y)]) else None
  {
    var n := Max(|[x]|, |[y]|);
    assert Aligned([x], n, 0) == x && Aligned([y], n, 0) == y;
    if Compatible(x, y) {
      assert AlignedMax([x], [y], n, 0) == Max(x, y);
      assert Broadcast([x], [y]).value == [Max(x, y)];
    }
  }

  /** A position of the result, brought back to an operand: a stretched dimension reads 0. */
  function Project(s: Shape, index: Shape): Shape
    requires |index| >= |s|
  {
    seq(|s|, i requires 0 <= i < |s| => if s[i] == 1 then 0 else index[|index| - |s| + i])
  }

  ghost predicate InBounds(index: Shape, s: Shape) {
    |index| == |s| && forall i :: 0 <= i < |s| ==> index[i] < s[i]
  }

  /** Every position of a broadcast result projects into the bounds of both operands. */
  lemma {:induction false} BroadcastProjects(a: Shape, b: Shape, index: Shape)
    requires Positive(a) && Positive(b)
    requires Broadcast(a, b).Some? && InBounds(index, Broadcast(a, b).value)
    ensures InBounds(Project(a, index), a) && InBounds(Project(b, index), b)
  {
    BroadcastCommutes(a, b);
    ProjectsLeft(a, b, index);
    ProjectsLeft(b, a, index);
  }

  lemma {:induction false} ProjectsLeft(a: Shape, b: Shape, index: Shape)
    requires Positive(a) && Positive(b)
    requires Broadcast(a, b).Some? && InBounds(index, Broadcast(a, b).value)
    ensures |index| >= |a| && InBounds(Project(a, index), a)
  {
    var n, r := Max(|a|, |b|), Broadcast(a, b).value;
    forall i | 0 <= i < |a| ensures Project(a, index)[i] < a[i] {
      var j := n - |a| + i;
      assert Compatible(Aligned(a, n, j), Aligned(b, n, j)) && r[j] == AlignedMax(a, b, n, j);
      assert index[j] < r[j];
    }
  }

  // ----- rank-preserving and rank-changing operations

  /** The dimensions at positions outside `axes`. */
  function Kept(s: Shape, axes: seq<nat>): Shape {
    if s == [] then []
    else Kept(s[..|s| - 1], axes) + if |s| - 1 in axes then [] else [s[|s| - 1]]
  }

  function ReduceShape(s: Shape, axes: seq<nat>, keepDims: bool): Shape {
    if keepDims then seq(|s|, i requires 0 <= i < |s| => if i in axes then 1 else s[i]) else Kept(s, axes)
  }

  function TileShape(s: Shape, reps: seq<nat>): Shape {
    seq(Max(|s|, |reps|), i requires 0 <= i => GetOr(s, i, 1) * GetOr(reps, i, 1))
  }

  function TransposeShape(s: Shape, perm: seq<nat>): Shape {
    seq(|perm|, i requires 0 <= i < |perm| => GetOr(s, perm[i], 0))
  }

  function PadShape(s: Shape, pad: seq<nat>): Shape {
    seq(|s|, i requires 0 <= i < |s| => s[i] + (GetOr(pad, i, 0) + GetOr(pad, i + |s|, 0)))
  }

  /** Insertion into an ascending list, repetitions kept. */
  function InsertAxis(a: nat, s: seq<nat>): seq<nat> {
    if s == [] || a <= s[0] then [a] + s else [s[0]] + InsertAxis(a, s[1..])
  }

  function SortAxes(axes: seq<nat>): (r: seq<nat>)
    ensures |r| == |axes|
  {
    if axes == [] then [] else
      InsertAxisLength(axes[0], SortAxes(axes[1..]));
      InsertAxis(axes[0], SortAxes(axes[1..]))
  }

  lemma {:induction false} InsertAxisLength(a: nat, s: seq<nat>)
    ensures |InsertAxis(a, s)| == |s| + 1
    ensures multiset(InsertAxis(a, s)) == multiset(s) + multiset{a}
  {
    if s != [] && a > s[0] {
      InsertAxisLength(a, s[1..]);
      assert s == [s[0]] + s[1..];
    }
  }

  function InsertAt(s: Shape, at: nat, dim: nat): Shape {
    var p := if at <= |s| then at else |s|;
    s[..p] + [dim] + s[p..]
  }

  function RemoveAt(s: Shape, at: nat): Shape {
    if at < |s| then s[..at] + s[at + 1..] else s
  }

  /** Insert a dimension of 1 at each of the ascending positions, the first one first. */
  function ExpandSorted(s: Shape, sorted: seq<nat>): Shape {
    if sorted == [] then s
    else InsertAt(ExpandSorted(s, sorted[..|sorted| - 1]), sorted[|sorted| - 1], 1)
  }

  /** Remove the dimension at each of the ascending positions, the last one first. */
  function SqueezeSorted(s: Shape, sorted: seq<nat>): Shape {
    if sorted == [] then s
    else SqueezeSorted(RemoveAt(s, sorted[|sorted| - 1]), sorted[..|sorted| - 1])
  }

  function ExpandDimsShape(s: Shape, axes: seq<nat>): Shape { ExpandSorted(s, SortAxes(axes)) }

  function SqueezeShape(s: Shape, axes: seq<nat>): Shape { SqueezeSorted(s, SortAxes(axes)) }

  ghost predicate Sorted(s: seq<nat>) { forall i, j :: 0 <= i < j < |s| ==> s[i] <= s[j] }

  ghost predicate Distinct(s: seq<nat>) { forall i, j :: 0 <= i < j < |s| ==> s[i] != s[j] }

  lemma {:induction false} InsertAxisMember(a: nat, s: seq<nat>, x: nat)
    requires x in InsertAxis(a, s)
    ensures x == a || x in s
  {
    if s != [] && a > s[0] && x != s[0] { InsertAxisMember(a, s[1..], x); }
  }

  lemma {:induction false} InsertAxisSorted(a: nat, s: seq<nat>)
    requires Sorted(s)
    ensures Sorted(InsertAxis(a, s))
  {
    if s != [] && a > s[0] {
      var rest := InsertAxis(a, s[1..]);
      InsertAxisSorted(a, s[1..]);
      forall j | 0 <= j < |rest| ensures s[0] <= rest[j] {
        assert rest[j] in rest;
        InsertAxisMember(a, s[1..], rest[j]);
      }
    }
  }

  lemma {:induction false} SortAxesSorts(axes: seq<nat>)
    ensures Sorted(SortAxes(axes))
    ensures multiset(SortAxes(axes)) == multiset(axes)
  {
    if axes != [] {
      SortAxesSorts(axes[1..]);
      InsertAxisSorted(axes[0], SortAxes(axes[1..]));
      InsertAxisLength(axes[0], SortAxes(axes[1..]));
      assert axes == [axes[0]] + axes[1..];
    }
  }

  /** Squeezing the positions just expanded gives the shape back, exactly when every axis is
      a position of the expanded shape at the moment it is inserted. */
  lemma {:induction false} ExpandSqueeze(s: Shape, axes: seq<nat>)
    ensures SqueezeShape(ExpandDimsShape(s, axes), axes) == s
            <==> OutputPositions(SortAxes(axes), |s|)
  {
    ExpandSqueezeSorted(s, SortAxes(axes));
  }

  ghost predicate OutputPositions(sorted: seq<nat>, rank: nat) {
    forall j :: 0 <= j < |sorted| ==> sorted[j] <= rank + j
  }

  lemma {:induction false} ExpandLength(s: Shape, sorted: seq<nat>)
    ensures |ExpandSorted(s, sorted)| == |s| + |sorted|
  {
    if sorted != [] { ExpandLength(s, sorted[..|sorted| - 1]); }
  }

  lemma {:induction false} SqueezeLength(s: Shape, sorted: seq<nat>)
    ensures |SqueezeSorted(s, sorted)| + |sorted| >= |s|
  {
    if sorted != [] { SqueezeLength(RemoveAt(s, sorted[|sorted| - 1]), sorted[..|sorted| - 1]); }
  }

  lemma {:induction false} ExpandSqueezeSorted(s: Shape, sorted: seq<nat>)
    ensures SqueezeSorted(ExpandSorted(s, sorted), sorted) == s <==> OutputPositions(sorted, |s|)
  {
    if sorted != [] {
      var init, last := sorted[..|sorted| - 1], sorted[|sorted| - 1];
      var t := ExpandSorted(s, init);
      ExpandLength(s, init);
      if last <= |s| + |init| {
        assert RemoveAt(InsertAt(t, last, 1), last) == t;
        ExpandSqueezeSorted(s, init);
        assert forall j :: 0 <= j < |init| ==> init[j] == sorted[j];
      } else {
        SqueezeLength(InsertAt(t, last, 1), init);
        assert sorted[|init|] > |s| + |init|;
      }
    }
  }

  /** For distinct axes, squeezing removes the same dimensions as a reduction that does not
      keep them. */
  lemma {:induction false} SqueezeIsReduce(s: Shape, axes: seq<nat>)
    requires Distinct(axes)
    ensures SqueezeShape(s, axes) == ReduceShape(s, axes, false)
  {
    var sorted := SortAxes(axes);
    SortAxesSorts(axes);
    SortedDistinct(axes, sorted);
    SqueezeSortedKept(s, sorted);
    forall a ensures a in sorted <==> a in axes {
      assert a in multiset(sorted) <==> a in multiset(axes);
    }
    KeptDepends(s, sorted, axes);
  }

  lemma {:induction false} SortedDistinct(axes: seq<nat>, sorted: seq<nat>)
    requires Distinct(axes) && Sorted(sorted) && multiset(axes) == multiset(sorted)
    ensures forall i, j :: 0 <= i < j < |sorted| ==> sorted[i] < sorted[j]
  {
    forall i, j | 0 <= i < j < |sorted| ensures sorted[i] < sorted[j] {
      if sorted[i] == sorted[j] {
        Repeats(sorted, i, j);
        OnceEach(axes, sorted[i]);
      }
    }
  }

  lemma {:induction false} Repeats(s: seq<nat>, i: nat, j: nat)
    requires i < j < |s| && s[i] == s[j]
    ensures multiset(s)[s[i]] >= 2
  {
    assert s == s[..i] + [s[i]] + s[i + 1..j] + [s[j]] + s[j + 1..];
  }

  lemma {:induction false} OnceEach(s: seq<nat>, x: nat)
    requires Distinct(s)
    ensures multiset(s)[x] <= 1
  {
    if s != [] {
      OnceEach(s[1..], x);
      assert s == [s[0]] + s[1..];
      if x == s[0] {
        assert x !in s[1..];
        assert x !in multiset(s[1..]);
      }
    }
  }

  lemma {:induction false} KeptDepends(s: Shape, a: seq<nat>, b: seq<nat>)
    requires forall x | x < |s| :: x in a <==> x in b
    ensures Kept(s, a) == Kept(s, b)
  {
    if s != [] { KeptDepends(s[..|s| - 1], a, b); }
  }

  lemma {:induction false} KeptRemove(s: Shape, axes: seq<nat>, p: nat, others: seq<nat>)
    requires p < |s|
    requires forall x :: x in axes <==> x == p || x in others
    requires forall x | x in others :: x < p
    ensures Kept(s, axes) == Kept(RemoveAt(s, p), others)
  {
    var init := s[..|s| - 1];
    if p == |s| - 1 {
      assert RemoveAt(s, p) == init;
      KeptDepends(init, axes, others);
    } else {
      var last := s[|s| - 1];
      KeptRemove(init, axes, p, others);
      KeptSnoc(RemoveAt(init, p), last, others);
      RemoveSnoc(init, last, p);
      assert s == init + [last];
      assert |init| !in axes && |init| - 1 !in others;
    }
  }

  lemma {:induction false} RemoveSnoc(init: Shape, last: nat, p: nat)
    requires p < |init|
    ensures RemoveAt(init + [last], p) == RemoveAt(init, p) + [last]
  {
  }

  lemma {:induction false} KeptSnoc(init: Shape, last: nat, axes: seq<nat>)
    ensures Kept(init + [last], axes) == Kept(init, axes) + if |init| in axes then [] else [last]
  {
    assert (init + [last])[..|init|] == init;
  }

  lemma {:induction false} SqueezeSortedKept(s: Shape, sorted: seq<nat>)
    requires forall i, j :: 0 <= i < j < |sorted| ==> sorted[i] < sorted[j]
    ensures SqueezeSorted(s, sorted) == Kept(s, sorted)
  {
    if sorted == [] {
      KeptAll(s);
    } else {
      var init, last := sorted[..|sorted| - 1], sorted[|sorted| - 1];
      assert sorted == init + [last];
      SqueezeSortedKept(RemoveAt(s, last), init);
      if last < |s| { KeptRemove(s, sorted, last, init); } else { KeptDepends(s, sorted, init); }
    }
  }

  lemma {:induction false} KeptAll(s: Shape)
    ensures Kept(s, []) == s
  {
    if s != [] {
      KeptAll(s[..|s| - 1]);
      assert s == s[..|s| - 1] + [s[|s| - 1]];
    }
  }
}
