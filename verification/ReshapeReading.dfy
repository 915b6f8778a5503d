/** What a reshape with zeros in its target means: the shape that its declarations leave. */
module ReshapeReading {
  import opened Wrappers
  import opened Arithmetic
  import opened ShapeOps
  import opened ElementCounts
  import opened ReshapeResolution

  /** The rank and the non-zero dimensions of `target`. */
  predicate Fills(s: Shape, target: Shape) {
    |s| == |target| && forall i | 0 <= i < |target| && target[i] != 0 :: s[i] == target[i]
  }

  /** A declared shape says nothing if it is empty, and nothing where it holds a zero. */
  predicate Agrees(s: Shape, declared: Shape) { declared == [] || Fills(s, declared) }

  /** `s` completes the target, contradicts no declaration, and has the operand's count where
      the operand's shape is declared. */
  predicate Fits(s: Shape, target: Shape, declared: Shape, input: Option<Shape>) {
    && ZeroFree(s) && Fills(s, target) && Agrees(s, declared)
    && (input.Some? ==> Product(s) == Product(input.value))
  }

  /** Each zero stands for the operand's dimension at its position. */
  predicate Copies(s: Shape, target: Shape, input: Option<Shape>) {
    input.Some? && Positional(target, input.value) == Some(s)
  }

  /** The meaning of a target with zeros: the shape that copies the operand's dimensions, if it
      fits, and otherwise the only shape that does. */
  ghost predicate Denotes(s: Shape, target: Shape, declared: Shape, input: Option<Shape>) {
    && Fits(s, target, declared, input)
    && (Copies(s, target, input) || forall r :: Fits(r, target, declared, input) ==> r == s)
  }

  /** There is at most one meaning. */
  lemma {:induction false} DenotesOne(s: Shape, r: Shape, target: Shape, declared: Shape, input: Option<Shape>)
    requires Denotes(s, target, declared, input) && Denotes(r, target, declared, input)
    ensures s == r
  {
  }

  /** The target with its zeros filled in from the declared shape. */
  function Merged(target: Shape, declared: Shape): Shape {
    if |declared| != |target| then target
    else seq(|target|, i requires 0 <= i < |target| => if target[i] != 0 then target[i] else declared[i])
  }

  /** Whether a shape that fits is the meaning: it copies the operand, or the declarations leave
      no zero, or they leave one that the count settles, or nothing to be shared out. */
  predicate Determined(s: Shape, target: Shape, declared: Shape, input: Option<Shape>) {
    || Copies(s, target, input)
    || Zeros(Merged(target, declared)) == []
    || (input.Some? && (|Zeros(Merged(target, declared))| == 1
                        || Product(input.value) == NonZeroProduct(Merged(target, declared))))
  }

  // ----- the completions of a target

  /** What `s` puts in the place of the zeros of `m`. */
  function Filling(s: Shape, m: Shape): seq<nat>
    requires |s| == |m|
  {
    if m == [] then []
    else Filling(s[..|m| - 1], m[..|m| - 1]) + if m[|m| - 1] == 0 then [s[|m| - 1]] else []
  }

  lemma {:induction false} FillingCount(s: Shape, m: Shape)
    requires Fills(s, m)
    ensures |Filling(s, m)| == |Zeros(m)|
    ensures Product(s) == NonZeroProduct(m) * Product(Filling(s, m))
  {
    if m != [] {
      var n := |m| - 1;
      FillingCount(s[..n], m[..n]);
      assert s == s[..n] + [s[n]];
      ProductConcat(s[..n], [s[n]]);
      ProductSingle(s[n]);
      if m[n] == 0 {
        ProductConcat(Filling(s[..n], m[..n]), [s[n]]);
        Assoc(NonZeroProduct(m[..n]), Product(Filling(s[..n], m[..n])), s[n]);
      } else {
        MulSwap(NonZeroProduct(m[..n]), Product(Filling(s[..n], m[..n])), s[n]);
        assert Filling(s, m) == Filling(s[..n], m[..n]);
      }
    }
  }

  /** Two fillings whose product is 1 are the same. */
  lemma {:induction false} OnesFillAlike(s: Shape, r: Shape, m: Shape)
    requires Fills(s, m) && Fills(r, m)
    requires Product(Filling(s, m)) == 1 == Product(Filling(r, m))
    ensures s == r
  {
    if m != [] {
      var n := |m| - 1;
      if m[n] == 0 {
        LastOfOnes(Filling(s[..n], m[..n]), s[n]);
        LastOfOnes(Filling(r[..n], m[..n]), r[n]);
      } else {
        assert Filling(s, m) == Filling(s[..n], m[..n]) && Filling(r, m) == Filling(r[..n], m[..n]);
      }
      OnesFillAlike(s[..n], r[..n], m[..n]);
      assert s == s[..n] + [s[n]] && r == r[..n] + [r[n]];
    }
  }

  lemma {:induction false} LastOfOnes(init: seq<nat>, last: nat)
    requires Product(init + [last]) == 1
    ensures last == 1 && Product(init) == 1
  {
    ProductConcat(init, [last]);
    ProductSingle(last);
    var p := Product(init);
    if p > 1 && last > 0 { MulMonotone(2, p, 1, last); }
    if p > 0 && last > 1 { MulMonotone(1, p, 2, last); }
  }

  /** Values put in the place of the zeros are what is found there afterwards. */
  ghost predicate FilledBy(m: Shape, values: seq<nat>)
    requires |values| == |Zeros(m)| && Within(Zeros(m), |m|)
  {
    var s := Assign(m, Zeros(m), values);
    Fills(s, m) && ZeroFree(s) && Filling(s, m) == values
  }

  lemma {:induction false} AssignFills(m: Shape, values: seq<nat>)
    requires |values| == |Zeros(m)| && Within(Zeros(m), |m|)
    requires 0 !in values
    ensures FilledBy(m, values)
  {
    if m != [] {
      var init, d := m[..|m| - 1], m[|m| - 1];
      assert m == init + [d];
      ZerosAre(init);
      if d == 0 {
        var v, x := values[..|values| - 1], values[|values| - 1];
        assert values == v + [x];
        AssignFills(init, v);
        ZeroFilled(init, v, x);
      } else {
        AssignFills(init, values);
        NonZeroKept(init, values, d);
      }
    }
  }

  lemma {:induction false} ZerosAppend(init: Shape, d: nat)
    ensures Zeros(init + [d]) == Zeros(init) + if d == 0 then [|init|] else []
  {
    assert (init + [d])[..|init|] == init;
  }

  lemma {:induction false} ZeroFilled(init: Shape, v: seq<nat>, x: nat)
    requires |v| == |Zeros(init)| && Within(Zeros(init), |init|) && FilledBy(init, v) && x > 0
    ensures |v + [x]| == |Zeros(init + [0])| && Within(Zeros(init + [0]), |init + [0]|)
    ensures FilledBy(init + [0], v + [x])
  {
    var z := Zeros(init);
    ZerosAppend(init, 0);
    AssignAppends(init, 0, z, v);
    FillsAppend(Assign(init, z, v), x, init, 0);
    assert (z + [|init|])[..|z|] == z && (v + [x])[..|v|] == v;
    assert Assign(init + [0], z + [|init|], v + [x]) == (Assign(init, z, v) + [0])[|init| := x] == Assign(init, z, v) + [x];
  }

  lemma {:induction false} NonZeroKept(init: Shape, values: seq<nat>, d: nat)
    requires |values| == |Zeros(init)| && Within(Zeros(init), |init|) && FilledBy(init, values) && d > 0
    ensures |values| == |Zeros(init + [d])| && Within(Zeros(init + [d]), |init + [d]|)
    ensures FilledBy(init + [d], values)
  {
    ZerosAppend(init, d);
    assert Zeros(init + [d]) == Zeros(init);
    AssignAppends(init, d, Zeros(init), values);
    FillsAppend(Assign(init, Zeros(init), values), d, init, d);
  }

  lemma {:induction false} FillsAppend(s: Shape, x: nat, m: Shape, d: nat)
    requires Fills(s, m) && ZeroFree(s) && x > 0 && (d == 0 || d == x)
    ensures Fills(s + [x], m + [d]) && ZeroFree(s + [x])
    ensures Filling(s + [x], m + [d]) == Filling(s, m) + if d == 0 then [x] else []
  {
    assert (s + [x])[..|s|] == s && (m + [d])[..|m|] == m;
  }

  // ----- when a completion is the only one

  /** A zero-free shape that fills `m` and has `elements` elements. */
  ghost predicate Completion(s: Shape, m: Shape, elements: nat) {
    Fills(s, m) && ZeroFree(s) && Product(s) == elements
  }

  lemma {:induction false} FewZerosOneCompletion(m: Shape, s: Shape, r: Shape)
    requires Completion(s, m, Product(s)) && Completion(r, m, Product(s))
    requires |Zeros(m)| <= 1 || Product(s) == NonZeroProduct(m)
    ensures r == s
  {
    FillingCount(s, m);
    FillingCount(r, m);
    if Zeros(m) == [] {
      ConcreteOneCompletion(m, s, r);
    } else if |Zeros(m)| == 1 {
      SameCountSame(m, r, s);
    } else {
      SameFactor(NonZeroProduct(m), Product(Filling(s, m)), 1);
      OnesFillAlike(s, r, m);
    }
  }

  lemma {:induction false} OnesZeroFree(n: nat, q: nat)
    requires q > 0
    ensures 0 !in [q] + Ones(n) && 0 !in Ones(n) + [q]
    ensures Product([q] + Ones(n)) == q == Product(Ones(n) + [q])
  {
    ProductOnes(n);
    ProductSingle(q);
    ProductConcat([q], Ones(n));
    ProductConcat(Ones(n), [q]);
  }

  /** Several zeros share a count in more than one way if there is anything to share. */
  lemma {:induction false} ManyZerosMoreCompletions(m: Shape, s: Shape) returns (r: Shape)
    requires Completion(s, m, Product(s))
    requires |Zeros(m)| > 1 && Product(s) != NonZeroProduct(m)
    ensures Completion(r, m, Product(s)) && r != s
  {
    var k, q := |Zeros(m)| - 1, Product(Filling(s, m));
    FillingCount(s, m);
    ProductZero(s);
    PositiveFactor(NonZeroProduct(m), q);
    ZerosAre(m);
    OnesZeroFree(k, q);
    var front, back := [q] + Ones(k), Ones(k) + [q];
    AssignFills(m, front);
    AssignFills(m, back);
    AssignProduct(m, front);
    AssignProduct(m, back);
    assert q != 1;
    assert front[0] == q && back[0] == 1;
    r := Assign(m, Zeros(m), if Filling(s, m) == front then back else front);
  }

  /** Without a count any zero may be anything. */
  lemma {:induction false} NoCountMoreCompletions(m: Shape, s: Shape) returns (r: Shape)
    requires Fills(s, m) && ZeroFree(s) && Zeros(m) != []
    ensures Fills(r, m) && ZeroFree(r) && r != s
  {
    ZerosAre(m);
    var z := Zeros(m)[0];
    assert z in Zeros(m);
    r := s[z := s[z] + 1];
    assert r[z] != s[z];
  }

  lemma {:induction false} ConcreteOneCompletion(m: Shape, s: Shape, r: Shape)
    requires Fills(s, m) && Fills(r, m) && Zeros(m) == []
    ensures r == s
  {
    ZerosAre(m);
    forall i | 0 <= i < |m| ensures s[i] == r[i] { assert i !in Zeros(m); }
  }

  /** Whoever agrees with the declarations fills the merged target, and the other way round. */
  lemma {:induction false} FitsMerged(s: Shape, r: Shape, target: Shape, declared: Shape, input: Option<Shape>)
    requires Fits(s, target, declared, input)
    ensures Fits(r, target, declared, input) <==>
      Fills(r, Merged(target, declared)) && ZeroFree(r) && (input.Some? ==> Product(r) == Product(input.value))
  {
    var m := Merged(target, declared);
    if Fills(r, m) {
      forall i | 0 <= i < |target| && target[i] != 0 ensures r[i] == target[i] { assert m[i] == target[i]; }
      if declared != [] {
        forall i | 0 <= i < |declared| && declared[i] != 0 ensures r[i] == declared[i] {
          assert m[i] == if target[i] != 0 then target[i] else declared[i];
          assert s[i] == declared[i];
        }
      }
    }
  }

  /** A shape that fits is the meaning exactly when the declarations determine it. */
  lemma {:induction false} DenotesIff(s: Shape, target: Shape, declared: Shape, input: Option<Shape>)
    ensures Denotes(s, target, declared, input)
            <==> Fits(s, target, declared, input) && Determined(s, target, declared, input)
  {
    var m := Merged(target, declared);
    if Fits(s, target, declared, input) {
      FitsMerged(s, s, target, declared, input);
      if Determined(s, target, declared, input) && !Copies(s, target, input) {
        forall r | Fits(r, target, declared, input) ensures r == s {
          FitsMerged(s, r, target, declared, input);
          if input.Some? { FewZerosOneCompletion(m, s, r); } else { ConcreteOneCompletion(m, s, r); }
        }
      }
      if !Determined(s, target, declared, input) {
        var r;
        if input.Some? { r := ManyZerosMoreCompletions(m, s); } else { r := NoCountMoreCompletions(m, s); }
        FitsMerged(s, r, target, declared, input);
      }
    }
  }
}
