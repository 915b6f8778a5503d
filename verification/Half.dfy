/**
 Binary16 rounding, as the conversions to half precision perform it.

 A non-negative binary16 pattern is a number `h <= 0x7C00`.  Magnitudes are counted in
 units of 2^-24, the smallest subnormal, so every finite pattern stands for an integer.
 The pattern of infinity takes the value 2^16 that would come next: rounding to the
 nearest pattern, ties to even, is then exactly the rounding of section 4.3.1 of
 IEEE 754-2019, its overflow threshold included.
 */
module Half {
  import opened Arithmetic

  const INF: nat := 0x7C00

  function Pow2(k: nat): (p: nat)
    ensures p > 0
  {
    if k == 0 then 1 else 2 * Pow2(k - 1)
  }

  lemma {:induction false} Pow2Add(j: nat, k: nat)
    ensures Pow2(j + k) == Pow2(j) * Pow2(k)
  {
    if j > 0 {
      Pow2Add(j - 1, k);
      assert Pow2(j + k) == 2 * (Pow2(j - 1) * Pow2(k)) == Pow2(j) * Pow2(k);
    }
  }

  /** The value of a pattern in units of 2^-24. */
  function HalfValue(h: nat): nat {
    if h < 2048 then h else 2 * HalfValue(h - 1024)
  }

  /** The value by fields: exponent field `e` and fraction `f`. */
  lemma {:induction false} HalfValueFields(e: nat, f: nat)
    requires f < 1024
    ensures HalfValue(e * 1024 + f) == if e == 0 then f else (1024 + f) * Pow2(e - 1)
  {
    if e >= 2 {
      HalfValueFields(e - 1, f);
      assert HalfValue(e * 1024 + f) == 2 * ((1024 + f) * Pow2(e - 2)) == (1024 + f) * (2 * Pow2(e - 2));
    }
  }

  lemma {:induction false} HalfValueIncreases(g: nat, h: nat)
    requires g < h
    ensures HalfValue(g) < HalfValue(h)
    decreases h
  {
    if h >= 2048 {
      if g >= 2048 {
        HalfValueIncreases(g - 1024, h - 1024);
      } else if h > 2048 {
        HalfValueIncreases(1024, h - 1024);
      }
    }
  }

  // ----- rounding

  function Abs(x: int): nat { if x < 0 then -x else x }

  /** `n / d` to the nearest integer, ties to even. */
  function RoundEven(n: nat, d: nat): nat
    requires d > 0
  {
    var q, r := n / d, n % d;
    if 2 * r < d || (2 * r == d && q % 2 == 0) then q else q + 1
  }

  /** `n / d` units to a pattern, as if the exponent range had no upper end. */
  function RoundUnbounded(n: nat, d: nat): nat
    requires d > 0
    decreases n - d
  {
    if n < 2048 * d then RoundEven(n, d) else 1024 + RoundUnbounded(n, 2 * d)
  }

  function RoundToHalf(n: nat, d: nat): nat
    requires d > 0
  {
    var h := RoundUnbounded(n, d);
    if h < INF then h else INF
  }

  function Distance(n: nat, d: nat, v: nat): nat { Abs(n - v * d) }

  /** `h` is the pattern nearest to `n / d` units; of two equally near, the even one. */
  ghost predicate NearestEven(n: nat, d: nat, h: nat) {
    && h <= INF
    && forall g: nat | g <= INF && g != h ::
         && Distance(n, d, HalfValue(h)) <= Distance(n, d, HalfValue(g))
         && (Distance(n, d, HalfValue(h)) == Distance(n, d, HalfValue(g)) ==> h % 2 == 0)
  }

  lemma {:induction false} RoundEvenNearest(n: nat, d: nat, v: nat)
    requires d > 0
    requires v != RoundEven(n, d)
    ensures Distance(n, d, RoundEven(n, d)) <= Distance(n, d, v)
    ensures Distance(n, d, RoundEven(n, d)) == Distance(n, d, v) ==> RoundEven(n, d) % 2 == 0
  {
    var q, r := Quotient(n, d);
    MulLess(q, q + 1, d);
    assert (q + 1) * d == q * d + d;
    if v < q { MulLess(v, q, d); }
    if v > q + 1 { MulLess(q + 1, v, d); }
    assert v < q || v == q || v == q + 1 || v > q + 1;
  }

  lemma {:induction false} RoundEvenBound(n: nat, d: nat, k: nat)
    requires d > 0
    ensures n <= k * d ==> RoundEven(n, d) <= k
    ensures n >= k * d ==> RoundEven(n, d) >= k
  {
    var q, r := Quotient(n, d);
    if q > k { MulLess(k, q, d); }
    if q < k { MulLess(q, k, d); }
  }

  lemma {:induction false} RoundUnboundedNearest(n: nat, d: nat, g: nat)
    requires d > 0
    requires g != RoundUnbounded(n, d)
    ensures Distance(n, d, HalfValue(RoundUnbounded(n, d))) <= Distance(n, d, HalfValue(g))
    ensures Distance(n, d, HalfValue(RoundUnbounded(n, d))) == Distance(n, d, HalfValue(g))
            ==> RoundUnbounded(n, d) % 2 == 0
    decreases n - d
  {
    if n < 2048 * d {
      SmallestUnitNearest(n, d, g);
    } else {
      var h, u := RoundUnbounded(n, 2 * d), 2 * d;
      RoundUnboundedAtLeast(n, u);
      var low := if g >= 2048 then g - 1024 else 1024;
      if h != low { RoundUnboundedNearest(n, u, low); }
      assert RoundUnbounded(n, d) == 1024 + h;
      if g >= 2048 { NearestOneExponentUp(n, d, low, h); } else { LowPatternsFurther(n, d, g, h); }
    }
  }

  lemma {:induction false} NearestOneExponentUp(n: nat, d: nat, g: nat, h: nat)
    requires g >= 1024 && h >= 1024
    requires Distance(n, 2 * d, HalfValue(h)) <= Distance(n, 2 * d, HalfValue(g))
    requires Distance(n, 2 * d, HalfValue(h)) == Distance(n, 2 * d, HalfValue(g)) ==> h % 2 == 0
    ensures Distance(n, d, HalfValue(h + 1024)) <= Distance(n, d, HalfValue(g + 1024))
    ensures Distance(n, d, HalfValue(h + 1024)) == Distance(n, d, HalfValue(g + 1024)) ==> (h + 1024) % 2 == 0
  {
    DistanceHalves(n, d, h);
    DistanceHalves(n, d, g);
  }

  lemma {:induction false} SmallestUnitNearest(n: nat, d: nat, g: nat)
    requires d > 0 && n < 2048 * d
    requires g != RoundEven(n, d)
    ensures RoundEven(n, d) <= 2048
    ensures Distance(n, d, HalfValue(RoundEven(n, d))) <= Distance(n, d, HalfValue(g))
    ensures Distance(n, d, HalfValue(RoundEven(n, d))) == Distance(n, d, HalfValue(g)) ==> RoundEven(n, d) % 2 == 0
  {
    RoundEvenBound(n, d, 2048);
    if g > 2048 { HalfValueIncreases(2048, g); }
    RoundEvenNearest(n, d, HalfValue(g));
  }

  /** From 2048 units on, what is no further than 2048 units is nearer than anything below. */
  lemma {:induction false} LowPatternsFurther(n: nat, d: nat, g: nat, h: nat)
    requires d > 0 && n >= 2048 * d && g < 2048 && h >= 1024
    requires Distance(n, 2 * d, HalfValue(h)) <= Distance(n, 2 * d, HalfValue(1024))
    ensures Distance(n, d, HalfValue(h + 1024)) < Distance(n, d, HalfValue(g))
  {
    DistanceHalves(n, d, h);
    DistanceHalves(n, d, 1024);
    assert HalfValue(2048) == 2048 && HalfValue(g) == g;
    MulLess(g, 2048, d);
  }

  /** Seen in units twice as large, a pattern is one exponent lower. */
  lemma {:induction false} DistanceHalves(n: nat, d: nat, h: nat)
    requires h >= 1024
    ensures Distance(n, d, HalfValue(h + 1024)) == Distance(n, 2 * d, HalfValue(h))
  {
    var v := HalfValue(h);
    assert HalfValue(h + 1024) == 2 * v;
    assert 2 * v * d == v * (2 * d);
  }

  lemma {:induction false} RoundUnboundedAtLeast(n: nat, d: nat)
    requires d > 0 && n >= 1024 * d
    ensures RoundUnbounded(n, d) >= 1024
    decreases n - d
  {
    if n < 2048 * d { RoundEvenBound(n, d, 1024); } else { RoundUnboundedAtLeast(n, 2 * d); }
  }

  /** The rounding function meets the standard's definition on every magnitude. */
  lemma {:induction false} RoundToHalfNearest(n: nat, d: nat)
    requires d > 0
    ensures NearestEven(n, d, RoundToHalf(n, d))
  {
    var u, h := RoundUnbounded(n, d), RoundToHalf(n, d);
    forall g: nat | g <= INF && g != h
      ensures Distance(n, d, HalfValue(h)) <= Distance(n, d, HalfValue(g))
      ensures Distance(n, d, HalfValue(h)) == Distance(n, d, HalfValue(g)) ==> h % 2 == 0
    {
      if u <= INF {
        RoundUnboundedNearest(n, d, g);
      } else {
        RoundUnboundedNearest(n, d, INF);
        HalfValueIncreases(g, INF);
        HalfValueIncreases(INF, u);
        MulLess(HalfValue(g), HalfValue(INF), d);
        MulLess(HalfValue(INF), HalfValue(u), d);
      }
    }
  }

  /** At most one pattern is nearest-even, so the standard's definition leaves no choice. */
  lemma {:induction false} NearestEvenUnique(n: nat, d: nat, h: nat, k: nat)
    requires d > 0
    requires NearestEven(n, d, h) && NearestEven(n, d, k)
    ensures h == k
  {
    if h != k {
      var lo, hi := if h < k then h else k, if h < k then k else h;
      assert Distance(n, d, HalfValue(h)) == Distance(n, d, HalfValue(k));
      assert Distance(n, d, HalfValue(lo)) <= Distance(n, d, HalfValue(lo + 1));
      HalfValueIncreases(lo, lo + 1);
      HalfValueIncreases(lo + 1, hi);
      MulLess(HalfValue(lo), HalfValue(lo + 1), d);
      MulLess(HalfValue(lo + 1), HalfValue(hi), d);
    }
  }

  lemma {:induction false} RoundUnboundedMonotone(m: nat, n: nat, d: nat)
    requires d > 0 && m <= n
    ensures RoundUnbounded(m, d) <= RoundUnbounded(n, d)
    decreases n - d
  {
    if n < 2048 * d {
      RoundEvenMonotone(m, n, d);
    } else if m < 2048 * d {
      RoundEvenBound(m, d, 2048);
      RoundUnboundedAtLeast(n, 2 * d);
    } else {
      RoundUnboundedMonotone(m, n, 2 * d);
    }
  }

  lemma {:induction false} RoundEvenMonotone(m: nat, n: nat, d: nat)
    requires d > 0 && m <= n
    ensures RoundEven(m, d) <= RoundEven(n, d)
  {
    var p, r := Quotient(m, d);
    var q, t := Quotient(n, d);
    if p > q { MulLess(q, p, d); }
  }

  /** Rounding depends on the ratio only. */
  lemma {:induction false} RoundUnboundedScale(n: nat, d: nat, c: nat)
    requires d > 0 && c > 0
    ensures d * c > 0 && RoundUnbounded(n * c, d * c) == RoundUnbounded(n, d)
    decreases n - d
  {
    MulLess(0, d, c);
    Assoc(2048, d, c);
    Assoc(2, d, c);
    if n < 2048 * d {
      MulLess(n, 2048 * d, c);
      RoundEvenScale(n, d, c);
    } else {
      if n > 2048 * d { MulLess(2048 * d, n, c); }
      RoundUnboundedScale(n, 2 * d, c);
      assert (2 * d) * c == 2 * (d * c);
      assert RoundUnbounded(n * c, d * c) == 1024 + RoundUnbounded(n * c, 2 * (d * c));
    }
  }

  lemma {:induction false} RoundEvenScale(n: nat, d: nat, c: nat)
    requires d > 0 && c > 0
    ensures d * c > 0 && RoundEven(n * c, d * c) == RoundEven(n, d)
  {
    var q, r := n / d, n % d;
    assert d * c > 0;
    assert n * c == q * (d * c) + r * c by { assert n == q * d + r; assert (q * d) * c == q * (d * c); }
    MulLess(r, d, c);
    DivModUnique(n * c, d * c, q, r * c);
    if 2 * r < d { MulLess(2 * r, d, c); assert 2 * r * c == 2 * (r * c); }
    if 2 * r > d { MulLess(d, 2 * r, c); assert 2 * r * c == 2 * (r * c); }
    if 2 * r == d { assert 2 * (r * c) == d * c; }
  }

  lemma {:induction false} DoubleOut(d: nat, p: nat)
    ensures 2 * d * p == d * (2 * p)
  {
  }

  /** Halving a magnitude of at least 2048 units lowers its pattern by one exponent. */
  lemma {:induction false} RoundUnboundedUnwind(n: nat, d: nat, k: nat)
    requires d > 0
    requires k > 0 ==> n >= 2048 * d * Pow2(k - 1)
    ensures RoundUnbounded(n, d) == 1024 * k + RoundUnbounded(n, d * Pow2(k))
    decreases k
  {
    if k > 0 {
      var p := Pow2(k - 1);
      MulMonotone(2048 * d, 2048 * d, 1, p);
      if k > 1 { DoubleOut(2048 * d, Pow2(k - 2)); }
      RoundUnboundedUnwind(n, 2 * d, k - 1);
      DoubleOut(d, p);
    }
  }

  /** Values on the grid round to themselves. */
  lemma {:induction false} RoundExact(h: nat, d: nat)
    requires d > 0
    ensures RoundUnbounded(HalfValue(h) * d, d) == h
  {
    if h < 2048 {
      DivModUnique(h * d, d, h, 0);
      MulLess(h, 2048, d);
    } else {
      var v := HalfValue(h - 1024);
      assert HalfValue(1024) == 1024;
      if h > 2048 { HalfValueIncreases(1024, h - 1024); }
      assert HalfValue(h) * d == v * (2 * d) && v * (2 * d) == 2048 * d + (v - 1024) * (2 * d);
      assert (v - 1024) * (2 * d) >= 0;
      RoundExact(h - 1024, 2 * d);
    }
  }
}
