/** Zero dimensions of a reshape target (`resolve_reshape_shape` in `mir_to_compat.rs`). */
module ReshapeResolution {
  import opened Wrappers
  import opened Arithmetic
  import opened ShapeOps
  import opened ElementCounts

  /** The positions of the zeros, ascending. */
  function Zeros(t: Shape): seq<nat> {
    if t == [] then [] else Zeros(t[..|t| - 1]) + if t[|t| - 1] == 0 then [|t| - 1] else []
  }

  function NonZeroProduct(t: Shape): (p: nat)
    ensures p > 0
  {
    if t == [] then 1
    else if t[|t| - 1] == 0 then NonZeroProduct(t[..|t| - 1])
    else
      MulLess(0, NonZeroProduct(t[..|t| - 1]), t[|t| - 1]);
      NonZeroProduct(t[..|t| - 1]) * t[|t| - 1]
  }

  ghost predicate Within(positions: seq<nat>, n: nat) {
    forall k | 0 <= k < |positions| :: positions[k] < n
  }

  /** Overwrite the given positions, one value each. */
  function Assign(s: Shape, positions: seq<nat>, values: seq<nat>): (r: Shape)
    requires |positions| == |values| && Within(positions, |s|)
    ensures |r| == |s|
    ensures forall i | 0 <= i < |s| && i !in positions :: r[i] == s[i]
  {
    if positions == [] then s
    else
      var n := |positions| - 1;
      Assign(s, positions[..n], values[..n])[positions[n] := values[n]]
  }

  function Ones(n: nat): seq<nat> { seq(n, _ => 1) }

  /** Each zero replaced by the input's dimension at the same position, if there is one. */
  function Positional(target: Shape, input: Shape): Option<Shape> {
    if forall i | 0 <= i < |target| && target[i] == 0 :: i < |input|
    then Some(seq(|target|, i requires 0 <= i < |target| => if target[i] == 0 then GetOr(input, i, 0) else target[i]))
    else None
  }

  /** What several zeros are replaced by: the batch size or 1 first, then ones, and last what
      remains of the element count. */
  function SpreadValues(zeros: nat, remaining: nat, batch: Option<nat>): (v: seq<nat>)
    requires zeros > 1
    ensures |v| == zeros
  {
    match batch
    case Some(b) => [b] + Ones(zeros - 2) + [if b > 0 && remaining % b == 0 then remaining / b else remaining]
    case None => Ones(zeros - 1) + [remaining]
  }

  lemma {:induction false} ZerosAre(t: Shape)
    ensures forall p: nat :: p in Zeros(t) <==> p < |t| && t[p] == 0
    ensures Within(Zeros(t), |t|) && Distinct(Zeros(t))
  {
    if t != [] {
      ZerosAre(t[..|t| - 1]);
      forall p: nat ensures p in Zeros(t) <==> p < |t| && t[p] == 0 {
        assert p < |t| - 1 ==> t[..|t| - 1][p] == t[p];
      }
    }
  }

  /** The completed target, or the target itself where it cannot be completed. */
  function Resolved(target: Shape, input: Shape, batch: Option<nat>): (r: Shape)
    ensures |r| == |target|
  {
    var elements, p, zeros := Product(input), NonZeroProduct(target), Zeros(target);
    var byPosition := Positional(target, input);
    ZerosAre(target);
    if elements == 0 then target
    else if byPosition.Some? && Product(byPosition.value) == elements then byPosition.value
    else if elements % p != 0 then target
    else if |zeros| == 0 then target
    else if |zeros| == 1 then target[zeros[0] := elements / p]
    else Assign(target, zeros, SpreadValues(|zeros|, elements / p, batch))
  }

  // ----- the loops

  method FillPositionally(target: Shape, input: Shape) returns (works: bool, resolved: Shape)
    ensures works <==> Positional(target, input).Some?
    ensures works ==> resolved == Positional(target, input).value
  {
    resolved := target;
    works := true;
    for i := 0 to |target|
      invariant works && |resolved| == |target|
      invariant forall j | 0 <= j < i && target[j] == 0 :: j < |input|
      invariant forall j | 0 <= j < i :: resolved[j] == if target[j] == 0 then GetOr(input, j, 0) else target[j]
      invariant forall j | i <= j < |target| :: resolved[j] == target[j]
    {
      if resolved[i] == 0 {
        if i < |input| {
          resolved := resolved[i := input[i]];
        } else {
          works := false;
          break;
        }
      }
    }
    if works { assert resolved == Positional(target, input).value; }
  }

  method CollectZeros(target: Shape) returns (positions: seq<nat>, nonZeroProduct: nat)
    ensures positions == Zeros(target)
    ensures nonZeroProduct == NonZeroProduct(target)
  {
    positions, nonZeroProduct := [], 1;
    for i := 0 to |target|
      invariant positions == Zeros(target[..i])
      invariant nonZeroProduct == NonZeroProduct(target[..i])
    {
      assert target[..i + 1][..i] == target[..i];
      if target[i] == 0 { positions := positions + [i]; } else { nonZeroProduct := nonZeroProduct * target[i]; }
    }
    assert target[..|target|] == target;
  }

  method ResolveReshapeShape(target: Shape, input: Shape, batch: Option<nat>) returns (resolved: Shape)
    ensures resolved == Resolved(target, input, batch)
  {
    var inputElements := Product(input);
    if inputElements == 0 { return target; }
    var works;
    works, resolved := FillPositionally(target, input);
    if works && Product(resolved) == inputElements { return; }
    resolved := target;
    var zeroPositions, nonZeroProduct := CollectZeros(target);
    ZerosAre(target);
    var remaining := inputElements / nonZeroProduct;
    assert remaining * nonZeroProduct == inputElements <==> inputElements % nonZeroProduct == 0 by {
      var q, r := Quotient(inputElements, nonZeroProduct);
    }
    if remaining * nonZeroProduct != inputElements { return target; }
    if |zeroPositions| == 0 {
    } else if |zeroPositions| == 1 {
      resolved := resolved[zeroPositions[0] := remaining];
    } else {
      resolved := SpreadZeros(target, zeroPositions, remaining, batch);
    }
  }

  method SpreadZeros(target: Shape, zeroPositions: seq<nat>, remaining: nat, batch: Option<nat>) returns (resolved: Shape)
    requires |zeroPositions| > 1 && Within(zeroPositions, |target|)
    ensures resolved == Assign(target, zeroPositions, SpreadValues(|zeroPositions|, remaining, batch))
  {
    resolved := target;
    var last := |zeroPositions| - 1;
    ghost var values := SpreadValues(|zeroPositions|, remaining, batch);
    var from, lastValue := 0, remaining;
    if batch.Some? {
      var b := batch.value;
      AssignStep(target, zeroPositions, values, 0);
      resolved := resolved[zeroPositions[0] := b];
      if b > 0 && remaining % b == 0 { lastValue := remaining / b; }
      from := 1;
    }
    assert lastValue == values[last] && forall k :: from <= k < last ==> values[k] == 1;
    resolved := SetOnes(target, zeroPositions, values, from, last, resolved);
    AssignStep(target, zeroPositions, values, last);
    resolved := resolved[zeroPositions[last] := lastValue];
    assert zeroPositions[..last + 1] == zeroPositions && values[..last + 1] == values;
  }

  /** All zeros but the first and the last become 1. */
  method SetOnes(target: Shape, zeroPositions: seq<nat>, ghost values: seq<nat>, from: nat, last: nat, before: Shape) returns (resolved: Shape)
    requires Within(zeroPositions, |target|) && from <= last < |zeroPositions| == |values|
    requires forall k :: from <= k < last ==> values[k] == 1
    requires before == Assign(target, zeroPositions[..from], values[..from])
    ensures resolved == Assign(target, zeroPositions[..last], values[..last])
  {
    resolved := before;
    for k := from to last
      invariant resolved == Assign(target, zeroPositions[..k], values[..k])
    {
      AssignStep(target, zeroPositions, values, k);
      resolved := resolved[zeroPositions[k] := 1];
    }
  }

  lemma {:induction false} AssignStep(s: Shape, positions: seq<nat>, values: seq<nat>, k: nat)
    requires |positions| == |values| && Within(positions, |s|) && k < |positions|
    ensures Assign(s, positions[..0], values[..0]) == s
    ensures Assign(s, positions[..k + 1], values[..k + 1])
         == Assign(s, positions[..k], values[..k])[positions[k] := values[k]]
  {
    assert positions[..k + 1][..k] == positions[..k] && values[..k + 1][..k] == values[..k];
  }

  // ----- what resolution guarantees

  predicate ZeroFree(s: Shape) { 0 !in s }

  /** The positional filling has the input's element count. */
  predicate PositionalMatches(target: Shape, input: Shape) {
    Positional(target, input).Some? && Product(Positional(target, input).value) == Product(input)
  }

  /** The rank and every non-zero dimension survive, whatever the input. */
  lemma {:induction false} ResolutionKeepsTarget(target: Shape, input: Shape, batch: Option<nat>)
    ensures |Resolved(target, input, batch)| == |target|
    ensures forall i | 0 <= i < |target| && target[i] != 0 :: Resolved(target, input, batch)[i] == target[i]
  {
    ZerosAre(target);
  }

  lemma {:induction false} AssignAppends(s: Shape, d: nat, positions: seq<nat>, values: seq<nat>)
    requires |positions| == |values| && Within(positions, |s|)
    ensures Assign(s + [d], positions, values) == Assign(s, positions, values) + [d]
  {
    if positions != [] {
      var n := |positions| - 1;
      AssignAppends(s, d, positions[..n], values[..n]);
    }
  }

  /** The count of a filled target: its non-zero part times the values filled in. */
  lemma {:induction false} AssignProduct(t: Shape, values: seq<nat>)
    requires |values| == |Zeros(t)| && Within(Zeros(t), |t|)
    ensures Product(Assign(t, Zeros(t), values)) == NonZeroProduct(t) * Product(values)
  {
    if t == [] {
    } else {
      var init, d, z := t[..|t| - 1], t[|t| - 1], Zeros(t[..|t| - 1]);
      assert t == init + [d];
      ZerosAre(init);
      if d == 0 {
        var v, x := values[..|values| - 1], values[|values| - 1];
        assert values == v + [x];
        assert Zeros(t)[..|z|] == z;
        AssignAppends(init, 0, z, v);
        assert Assign(t, Zeros(t), values) == Assign(init, z, v) + [x];
        AssignProduct(init, v);
        ProductConcat(Assign(init, z, v), [x]);
        ProductConcat(v, [x]);
        ProductSingle(x);
        Assoc(NonZeroProduct(init), Product(v), x);
      } else {
        assert Zeros(t) == z;
        AssignAppends(init, d, z, values);
        AssignProduct(init, values);
        ProductConcat(Assign(init, z, values), [d]);
        ProductSingle(d);
        MulSwap(NonZeroProduct(init), Product(values), d);
      }
    }
  }

  lemma {:induction false} ProductOnes(n: nat)
    ensures Product(Ones(n)) == 1
  {
    if n > 0 {
      ProductOnes(n - 1);
      assert Ones(n)[1..] == Ones(n - 1);
    }
  }

  lemma {:induction false} ProductZero(s: Shape)
    ensures Product(s) == 0 <==> 0 in s
  {
    if s != [] {
      ProductZero(s[1..]);
      assert s == [s[0]] + s[1..];
      if s[0] > 0 && Product(s[1..]) > 0 { MulLess(0, s[0], Product(s[1..])); }
    }
  }

  lemma {:induction false} SpreadProduct(zeros: nat, remaining: nat, batch: Option<nat>)
    requires zeros > 1 && remaining > 0
    ensures Product(SpreadValues(zeros, remaining, batch)) == remaining
            <==> batch.None? || (batch.value > 0 && remaining % batch.value == 0)
    ensures Product(SpreadValues(zeros, remaining, batch)) > 0 <==> batch != Some(0)
  {
    match batch
    case None =>
      ProductOnes(zeros - 1);
      ProductConcat(Ones(zeros - 1), [remaining]);
      ProductSingle(remaining);
    case Some(b) =>
      var last := if b > 0 && remaining % b == 0 then remaining / b else remaining;
      ProductOnes(zeros - 2);
      ProductConcat([b] + Ones(zeros - 2), [last]);
      ProductConcat([b], Ones(zeros - 2));
      ProductSingle(b);
      ProductSingle(last);
      BatchTimesRest(b, remaining, last);
  }

  lemma {:induction false} BatchTimesRest(b: nat, remaining: nat, last: nat)
    requires remaining > 0
    requires last == if b > 0 && remaining % b == 0 then remaining / b else remaining
    ensures b * last == remaining <==> b > 0 && remaining % b == 0
    ensures b * last > 0 <==> b > 0
  {
    if b > 0 {
      var q, r := Quotient(remaining, b);
      DivModUnique(remaining, 1, remaining, 0);
      if r != 0 { MulLess(1, b, remaining); }
    }
  }

  lemma {:induction false} FilledProduct(target: Shape, input: Shape, batch: Option<nat>)
    requires Product(input) > 0 && Zeros(target) != [] && !PositionalMatches(target, input)
    requires Product(input) % NonZeroProduct(target) == 0
    ensures var (p, n, z) := (NonZeroProduct(target), Product(input) / NonZeroProduct(target), |Zeros(target)|);
            && n > 0 && p * n == Product(input)
            && Product(Resolved(target, input, batch)) == p * if z == 1 then n else Product(SpreadValues(z, n, batch))
  {
    ZerosAre(target);
    var zeros, p := Zeros(target), NonZeroProduct(target);
    var n, r := Quotient(Product(input), p);
    MulCommutes(n, p);
    if |zeros| == 1 {
      AssignOne(target, zeros, n);
      AssignProduct(target, [n]);
      ProductSingle(n);
    } else {
      AssignProduct(target, SpreadValues(|zeros|, n, batch));
    }
  }

  lemma {:induction false} MulCommutes(n: nat, p: nat)
    ensures n * p == p * n
    ensures p * n > 0 ==> n > 0
  {
  }

  lemma {:induction false} AssignOne(s: Shape, positions: seq<nat>, value: nat)
    requires |positions| == 1 && Within(positions, |s|)
    ensures Assign(s, positions, [value]) == s[positions[0] := value]
  {
    assert positions[..0] == [] && [value][..0] == [];
  }

  /** For a target with zeros and an input without, resolution succeeds exactly when the
      positional filling has the right count or the non-zero dimensions divide it; the one
      exception is a batch size of 0 offered to several zeros. */
  lemma {:induction false} ResolutionZeroFree(target: Shape, input: Shape, batch: Option<nat>)
    requires Positive(input) && !ZeroFree(target)
    ensures ZeroFree(Resolved(target, input, batch)) <==>
      || PositionalMatches(target, input)
      || (Product(input) % NonZeroProduct(target) == 0 && (|Zeros(target)| > 1 ==> batch != Some(0)))
  {
    var r, p := Resolved(target, input, batch), NonZeroProduct(target);
    ProductZero(input);
    ProductZero(r);
    ZerosAre(target);
    assert Zeros(target) != [] by { var i :| 0 <= i < |target| && target[i] == 0; assert i in Zeros(target); }
    if !PositionalMatches(target, input) && Product(input) % p == 0 {
      FilledProduct(target, input, batch);
      var n, z := Product(input) / p, |Zeros(target)|;
      if z > 1 {
        SpreadProduct(z, n, batch);
        PositiveFactor(p, Product(SpreadValues(z, n, batch)));
      }
    }
  }

  lemma {:induction false} PositiveFactor(p: nat, x: nat)
    requires p > 0
    ensures p * x > 0 <==> x > 0
  {
    if x > 0 { MulLess(0, p, x); }
  }

  /** Positional filling has the right count, or the non-zero dimensions divide it and, with
      several zeros, a given batch size divides what they leave. */
  predicate Completable(target: Shape, input: Shape, batch: Option<nat>) {
    || PositionalMatches(target, input)
    || (&& Product(input) % NonZeroProduct(target) == 0
        && (|Zeros(target)| == 1 || batch.None?
            || (batch.value > 0 && Product(input) / NonZeroProduct(target) % batch.value == 0)))
  }

  /** The result has the input's element count exactly when resolution succeeds and, for
      several zeros, a given batch size divides what the non-zero dimensions leave. */
  lemma {:induction false} ResolutionConservesElements(target: Shape, input: Shape, batch: Option<nat>)
    requires Positive(input) && !ZeroFree(target)
    ensures Product(Resolved(target, input, batch)) == Product(input) <==> Completable(target, input, batch)
  {
    var r, p := Resolved(target, input, batch), NonZeroProduct(target);
    ProductZero(input);
    ProductZero(target);
    ZerosAre(target);
    assert Zeros(target) != [] by { var i :| 0 <= i < |target| && target[i] == 0; assert i in Zeros(target); }
    if !PositionalMatches(target, input) && Product(input) % p == 0 {
      FilledProduct(target, input, batch);
      var n, z := Product(input) / p, |Zeros(target)|;
      if z > 1 {
        SpreadProduct(z, n, batch);
        SameFactor(p, Product(SpreadValues(z, n, batch)), n);
      }
    }
  }

  lemma {:induction false} SameFactor(p: nat, x: nat, y: nat)
    requires p > 0
    ensures p * x == p * y <==> x == y
  {
    if x < y { MulLess(x, y, p); }
    if y < x { MulLess(y, x, p); }
  }

  /** A shape that fills the zeros of `target` and has `elements` elements. */
  ghost predicate Completes(s: Shape, target: Shape, elements: nat) {
    && |s| == |target|
    && (forall i | 0 <= i < |target| && target[i] != 0 :: s[i] == target[i])
    && Product(s) == elements
  }

  /** A single zero has at most one completion, and resolution finds it. */
  lemma {:induction false} SingleZeroUnique(target: Shape, input: Shape, batch: Option<nat>, s: Shape)
    requires Positive(input) && |Zeros(target)| == 1
    ensures Completes(s, target, Product(input)) <==> s == Resolved(target, input, batch) && ZeroFree(s)
  {
    if Completes(s, target, Product(input)) { CompletionIsResolved(target, input, batch, s); }
    if s == Resolved(target, input, batch) && ZeroFree(s) {
      HasZero(target);
      ResolutionKeepsTarget(target, input, batch);
      ResolutionZeroFree(target, input, batch);
      ResolutionConservesElements(target, input, batch);
    }
  }

  lemma {:induction false} HasZero(target: Shape)
    requires Zeros(target) != []
    ensures !ZeroFree(target)
  {
    ZerosAre(target);
    assert Zeros(target)[0] in Zeros(target);
    assert target[Zeros(target)[0]] == 0;
  }

  lemma {:induction false} CompletionIsResolved(target: Shape, input: Shape, batch: Option<nat>, s: Shape)
    requires Positive(input) && |Zeros(target)| == 1
    requires Completes(s, target, Product(input))
    ensures s == Resolved(target, input, batch) && ZeroFree(s)
  {
    HasZero(target);
    CompletionDivides(target, input, s);
    ResolutionConservesElements(target, input, batch);
    ResolutionKeepsTarget(target, input, batch);
    SameCountSame(target, s, Resolved(target, input, batch));
    ProductZero(input);
    ProductZero(s);
  }

  lemma {:induction false} CompletionDivides(target: Shape, input: Shape, s: Shape)
    requires |Zeros(target)| == 1 && Completes(s, target, Product(input))
    ensures Product(input) % NonZeroProduct(target) == 0
  {
    ZerosAre(target);
    OneZero(target, s);
    ExactMultiple(Product(s), NonZeroProduct(target), s[Zeros(target)[0]]);
  }

  lemma {:induction false} SameCountSame(target: Shape, s: Shape, t: Shape)
    requires |Zeros(target)| == 1
    requires Completes(s, target, Product(t)) && Completes(t, target, Product(t))
    ensures s == t
  {
    ZerosAre(target);
    OneZero(target, s);
    OneZero(target, t);
    SameFactor(NonZeroProduct(target), s[Zeros(target)[0]], t[Zeros(target)[0]]);
  }

  lemma {:induction false} OneZero(target: Shape, t: Shape)
    requires |Zeros(target)| == 1 && Zeros(target)[0] < |target|
    requires |t| == |target| && forall i | 0 <= i < |target| && target[i] != 0 :: t[i] == target[i]
    ensures t == target[Zeros(target)[0] := t[Zeros(target)[0]]]
    ensures Product(t) == NonZeroProduct(target) * t[Zeros(target)[0]]
  {
    var z := Zeros(target);
    ZerosAre(target);
    forall i | 0 <= i < |target| && i != z[0] ensures t[i] == target[i] {
      assert i !in z;
    }
    var x := t[z[0]];
    AssignOne(target, z, x);
    assert target[z[0] := x] == t;
    AssignProduct(target, [x]);
    ProductSingle(x);
  }

  /** With several zeros a batch size that does not divide gives the wrong count: 12 elements
      become 36. */
  lemma {:induction false} BatchCounterexample()
    ensures Resolved([0, 6, 0], [3, 4], Some(3)) == [3, 6, 2]
    ensures Product([3, 6, 2]) == 36 && Product([3, 4]) == 12
  {
    ProductTwo(3, 4);
    ProductConcat([3, 6], [2]);
    ProductTwo(3, 6);
    ProductSingle(2);
    assert [3, 6] + [2] == [3, 6, 2];
    ZerosOfExample();
    assert Positional([0, 6, 0], [3, 4]).None? by { assert [0, 6, 0][2] == 0; }
    assert SpreadValues(2, 2, Some(3)) == [3, 2];
    AssignTwo([0, 6, 0], 0, 2, 3, 2);
  }

  lemma {:induction false} ProductTwo(a: nat, b: nat)
    ensures Product([a, b]) == a * b
  {
    assert [a] + [b] == [a, b];
    ProductConcat([a], [b]);
    ProductSingle(a);
    ProductSingle(b);
  }

  lemma {:induction false} AssignTwo(s: Shape, i: nat, j: nat, a: nat, b: nat)
    requires i < |s| && j < |s|
    ensures Assign(s, [i, j], [a, b]) == s[i := a][j := b]
  {
    assert [i, j][..1] == [i] && [a, b][..1] == [a];
    AssignOne(s, [i], a);
  }

  lemma {:induction false} ZerosOfExample()
    ensures Zeros([0, 6, 0]) == [0, 2] && NonZeroProduct([0, 6, 0]) == 6
  {
    var t: Shape := [0, 6, 0];
    assert t[..2] == [0, 6] && t[..2][..1] == [0] && t[..2][..1][..0] == [];
    assert Zeros(t[..2][..1]) == [0] && NonZeroProduct(t[..2][..1]) == 1;
    assert Zeros(t[..2]) == [0] && NonZeroProduct(t[..2]) == 6;
  }

  // ----- the cast of the result

  /** `d as i32` */
  function AsI32(d: nat): int {
    var m := d % 0x1_0000_0000;
    if m < 0x8000_0000 then m else m - 0x1_0000_0000
  }

  function AsI32s(s: Shape): seq<int> {
    seq(|s|, i requires 0 <= i < |s| => AsI32(s[i]))
  }

  /** The cast loses nothing exactly while every dimension is below 2^31. */
  lemma {:induction false} CastIsExact(s: Shape)
    ensures AsI32s(s) == s <==> forall i | 0 <= i < |s| :: s[i] < 0x8000_0000
  {
    forall i | 0 <= i < |s| ensures AsI32(s[i]) == s[i] <==> s[i] < 0x8000_0000 {}
    if AsI32s(s) == s {
      forall i | 0 <= i < |s| ensures s[i] < 0x8000_0000 { assert AsI32s(s)[i] == s[i]; }
    }
  }

  /** The cast keeps the dimension modulo 2^32 and lands in the signed range. */
  lemma {:induction false} CastWraps(d: nat)
    ensures -0x8000_0000 <= AsI32(d) < 0x8000_0000 && (d - AsI32(d)) % 0x1_0000_0000 == 0
  {
    var q, m := Quotient(d, 0x1_0000_0000);
    if m < 0x8000_0000 {
      DivModUnique(d - AsI32(d), 0x1_0000_0000, q, 0);
    } else {
      DivModUnique(d - AsI32(d), 0x1_0000_0000, q + 1, 0);
    }
  }

  // ----- what stands where

  lemma {:induction false} ZerosAscend(t: Shape)
    ensures forall i, j | 0 <= i < j < |Zeros(t)| :: Zeros(t)[i] < Zeros(t)[j]
  {
    if t != [] {
      ZerosAscend(t[..|t| - 1]);
      ZerosAre(t[..|t| - 1]);
    }
  }

  lemma {:induction false} AssignAt(s: Shape, positions: seq<nat>, values: seq<nat>, k: nat)
    requires |positions| == |values| && Within(positions, |s|) && Distinct(positions) && k < |positions|
    ensures Assign(s, positions, values)[positions[k]] == values[k]
  {
    var n := |positions| - 1;
    if k < n {
      assert positions[k] != positions[n];
      AssignAt(s, positions[..n], values[..n], k);
    }
  }

  /** Where copying the zeros by position has the right count, that is the result. */
  lemma {:induction false} ResolvedByPosition(target: Shape, input: Shape, batch: Option<nat>, i: nat)
    requires PositionalMatches(target, input) && Positive(input) && i < |target| && target[i] == 0
    ensures i < |input| && Resolved(target, input, batch)[i] == input[i]
  {
    ProductZero(input);
  }

  /** Position `i` holds the only zero, or the first or the last of several. */
  ghost predicate FirstZero(t: Shape, i: nat) { i < |t| && t[i] == 0 && forall j | 0 <= j < i :: t[j] != 0 }

  ghost predicate LastZero(t: Shape, i: nat) { i < |t| && t[i] == 0 && forall j | i < j < |t| :: t[j] != 0 }

  lemma {:induction false} EndsOfZeros(t: Shape, i: nat, j: nat)
    requires FirstZero(t, i) && LastZero(t, j)
    ensures Zeros(t) != [] && Zeros(t)[0] == i && Zeros(t)[|Zeros(t)| - 1] == j
  {
    ZerosAre(t);
    ZerosAscend(t);
    var z := Zeros(t);
    assert i in z && j in z && z[0] in z && z[|z| - 1] in z;
    var a :| 0 <= a < |z| && z[a] == i;
    var b :| 0 <= b < |z| && z[b] == j;
  }

  lemma {:induction false} ResolvedSpreads(target: Shape, input: Shape, batch: Option<nat>, rest: nat)
    requires Positive(input) && !PositionalMatches(target, input) && Product(input) == rest * NonZeroProduct(target)
    requires |Zeros(target)| > 1
    ensures Within(Zeros(target), |target|) && Distinct(Zeros(target))
    ensures Resolved(target, input, batch) == Assign(target, Zeros(target), SpreadValues(|Zeros(target)|, rest, batch))
  {
    ProductZero(input);
    ZerosAre(target);
    DivModUnique(Product(input), NonZeroProduct(target), rest, 0);
  }

  lemma {:induction false} SpreadEnds(zeros: nat, rest: nat, batch: Option<nat>)
    requires zeros > 1
    ensures var v := SpreadValues(zeros, rest, batch);
      && v[0] == (if batch.Some? then batch.value else 1)
      && v[zeros - 1] == (if batch.Some? && batch.value > 0 && rest % batch.value == 0 then rest / batch.value else rest)
      && forall m | 0 < m < zeros - 1 :: v[m] == 1
  {
  }

  /** Where copying fails and the other dimensions divide the count, leaving `rest`, the first of
      several zeros becomes the batch size or 1, the last one what remains, divided by the batch size
      if that divides it, and those between become 1. */
  lemma {:induction false} ResolvedBySpreading(target: Shape, input: Shape, batch: Option<nat>, rest: nat, i: nat, j: nat)
    requires Positive(input) && !PositionalMatches(target, input) && Product(input) == rest * NonZeroProduct(target)
    requires FirstZero(target, i) && LastZero(target, j) && i < j
    ensures var r := Resolved(target, input, batch);
      && r[i] == (if batch.Some? then batch.value else 1)
      && r[j] == (if batch.Some? && batch.value > 0 && rest % batch.value == 0 then rest / batch.value else rest)
      && forall k | i < k < j && target[k] == 0 :: r[k] == 1
  {
    EndsOfZeros(target, i, j);
    ResolvedSpreads(target, input, batch, rest);
    SpreadEnds(|Zeros(target)|, rest, batch);
    AssignedEnds(target, i, j, SpreadValues(|Zeros(target)|, rest, batch));
  }

  lemma {:induction false} AssignedEnds(target: Shape, i: nat, j: nat, values: seq<nat>)
    requires FirstZero(target, i) && LastZero(target, j) && i < j
    requires |values| == |Zeros(target)| && Within(Zeros(target), |target|)
    requires forall m | 0 < m < |values| - 1 :: values[m] == 1
    ensures values != []
    ensures var r := Assign(target, Zeros(target), values);
      r[i] == values[0] && r[j] == values[|values| - 1] && forall k | i < k < j && target[k] == 0 :: r[k] == 1
  {
    ZerosAre(target);
    EndsOfZeros(target, i, j);
    AssignAt(target, Zeros(target), values, 0);
    AssignAt(target, Zeros(target), values, |values| - 1);
    forall k | i < k < j && target[k] == 0 ensures Assign(target, Zeros(target), values)[k] == 1 {
      BetweenEnds(target, i, j, k, values);
    }
  }

  lemma {:induction false} BetweenEnds(target: Shape, i: nat, j: nat, k: nat, values: seq<nat>)
    requires FirstZero(target, i) && LastZero(target, j) && i < k < j && target[k] == 0
    requires |values| == |Zeros(target)| && Within(Zeros(target), |target|)
    requires forall m | 0 < m < |values| - 1 :: values[m] == 1
    ensures Assign(target, Zeros(target), values)[k] == 1
  {
    var z := Zeros(target);
    ZerosAre(target);
    EndsOfZeros(target, i, j);
    assert k in z;
    var m :| 0 <= m < |z| && z[m] == k;
    AssignAt(target, z, values, m);
  }
}
