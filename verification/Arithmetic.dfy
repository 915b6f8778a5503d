/** Facts about products and quotients of naturals that the solver needs spelled out. */
module Arithmetic {
  function Min(a: nat, b: nat): nat { if a < b then a else b }

  lemma {:induction false} MulLess(a: nat, b: nat, d: nat)
    requires a < b && d > 0
    ensures a * d < a * d + d <= b * d
  {
    var k := b - a;
    assert k * d == d + (k - 1) * d;
    assert (k - 1) * d >= 0;
    assert b * d == (a + k) * d == a * d + k * d;
  }

  lemma {:induction false} MulMonotone(a: nat, b: nat, c: nat, d: nat)
    requires a <= b && c <= d
    ensures a * c <= b * d
  {
    assert b * d == a * c + a * (d - c) + (b - a) * d;
    assert a * (d - c) >= 0 && (b - a) * d >= 0;
  }

  lemma {:induction false} Quotient(n: nat, d: nat) returns (q: nat, r: nat)
    requires d > 0
    ensures q == n / d && r == n % d
    ensures n == q * d + r && r < d
  {
    q, r := n / d, n % d;
  }

  lemma {:induction false} DivModUnique(n: nat, d: nat, q: nat, r: nat)
    requires d > 0 && n == q * d + r && r < d
    ensures n / d == q && n % d == r
  {
    var p, t := Quotient(n, d);
    if q < p { MulLess(q, p, d); }
    if p < q { MulLess(p, q, d); }
  }

  lemma {:induction false} ExactMultiple(n: nat, d: nat, q: nat)
    requires d > 0 && n == d * q
    ensures n / d == q && n % d == 0
  {
    assert n == q * d + 0;
    DivModUnique(n, d, q, 0);
  }

  lemma {:induction false} Assoc(a: nat, b: nat, c: nat)
    ensures a * b * c == a * (b * c)
  {
  }

  lemma {:induction false} Regroup(a: nat, p: nat, d: nat, q: nat, u: nat)
    requires d * p == q * u
    ensures (a * p) * d == (a * q) * u
  {
    assert (a * p) * d == a * (d * p);
    assert (a * q) * u == a * (q * u);
  }

  lemma {:induction false} MulSwap(a: nat, b: nat, c: nat)
    ensures a * b * c == a * c * b == c * (a * b)
  {
    assert a * (b * c) == a * (c * b);
  }

  lemma {:induction false} MulSpread(a: nat, t: nat, d: nat, b: nat)
    ensures a * (t + d) * b == a * t * b + a * d * b
  {
    assert a * (t + d) == a * t + a * d;
  }

  lemma {:induction false} MulRotate(a: nat, i: nat, b: nat, d: nat)
    ensures a * i * b * d == a * d * b * i
  {
    MulSwap(a * i, b, d);
    MulSwap(a, i, d);
    MulSwap(a * d, i, b);
  }

  function Range(lo: nat, hi: nat): (r: set<nat>)
    requires lo <= hi
    ensures forall i: nat :: i in r <==> lo <= i < hi
    ensures |r| == hi - lo
    decreases hi - lo
  {
    if lo < hi then {lo} + Range(lo + 1, hi) else {}
  }

  lemma {:induction false} SubsetCard(a: set<nat>, b: set<nat>)
    requires a <= b
    ensures |a| <= |b|
  {
    if a != {} {
      var x :| x in a;
      SubsetCard(a - {x}, b - {x});
    }
  }

  /** A subset is as large as the whole only if it is the whole. */
  lemma {:induction false} SameCardSame(a: set<nat>, b: set<nat>)
    requires a <= b
    ensures |a| == |b| <==> a == b
  {
    if x :| x in b && x !in a { SubsetCard(a, b - {x}); }
  }
}
