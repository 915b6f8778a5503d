/** Narrowing of weight buffers to half precision (`safetensors_resolver.rs`). */
module Narrowing {
  import opened Arithmetic
  import opened Bytes
  import opened Half

  const SIGN: nat := 0x8000

  function ExponentField(bits: u32): nat { bits / 0x80_0000 % 0x100 }
  function Fraction(bits: u32): nat { bits % 0x80_0000 }
  function SignBit(bits: u32): nat { bits / 0x8000_0000 }

  ghost predicate Finite(bits: u32) { ExponentField(bits) < 0xFF }

  function Significand(bits: u32): (m: nat)
    ensures m < 0x100_0000
  {
    if ExponentField(bits) == 0 then Fraction(bits) else 0x80_0000 + Fraction(bits)
  }

  /** The magnitude of a finite number is `Significand * 2^(Exponent - 126)` units of 2^-24,
      here as a fraction `Numerator / Denominator`. */
  function Exponent(bits: u32): (e: nat)
    ensures e > 0
  {
    if ExponentField(bits) == 0 then 1 else ExponentField(bits)
  }

  ghost function Numerator(bits: u32): nat {
    Significand(bits) * Pow2(if Exponent(bits) > 126 then Exponent(bits) - 126 else 0)
  }

  ghost function Denominator(bits: u32): (d: nat)
    ensures d > 0
  {
    Pow2(if Exponent(bits) < 126 then 126 - Exponent(bits) else 0)
  }

  /** `half` is what narrowing `bits` to binary16 must give: the sign is kept, infinity and
      NaN stay what they are, and a finite number goes to the nearest pattern, ties to even. */
  ghost predicate IsNarrowing(bits: u32, half: u16) {
    && half / SIGN == SignBit(bits)
    && (Finite(bits) ==> NearestEven(Numerator(bits), Denominator(bits), half % SIGN))
    && (!Finite(bits) && Fraction(bits) == 0 ==> half % SIGN == INF)
    && (!Finite(bits) && Fraction(bits) != 0 ==> half % SIGN > INF)
  }

  /** `half::f16::from_f32`, on bit patterns. */
  function F16FromF32(bits: u32): u16 {
    SignBit(bits) * SIGN + F16Magnitude(ExponentField(bits), Fraction(bits))
  }

  /** Rebias the exponent and round the significand, letting a carry run into the exponent. */
  function F16Magnitude(exp: nat, man: nat): (h: nat)
    requires exp < 0x100 && man < 0x80_0000
    ensures h < SIGN
    ensures exp == 0xFF ==> h >= INF && (h == INF <==> man == 0)
  {
    if exp == 0xFF then
      var payload := man / 0x2000;
      INF + (if man == 0 then 0 else if payload >= 0x200 then payload else payload + 0x200)
    else if exp >= 143 then INF
    else if exp >= 113 then (exp - 112) * 1024 + RoundNormal(man)
    else if exp >= 102 then RoundSubnormal(0x80_0000 + man, exp)
    else 0
  }

  function RoundNormal(man: nat): (h: nat)
    requires man < 0x80_0000
    ensures h <= 1024
  {
    RoundEvenBound(man, 0x2000, 1024);
    RoundEven(man, 0x2000)
  }

  function RoundSubnormal(significand: nat, exp: nat): (h: nat)
    requires significand < 0x100_0000 && 102 <= exp <= 112
    ensures h <= 1024
  {
    Pow2Small();
    Pow2Monotone(126 - exp, 14);
    RoundEvenBound(significand, Pow2(126 - exp), 1024);
    RoundEven(significand, Pow2(126 - exp))
  }

  lemma {:induction false} Pow2Monotone(k: nat, j: nat)
    requires j <= k
    ensures Pow2(j) <= Pow2(k)
    decreases k - j
  {
    if j < k { Pow2Monotone(k, j + 1); }
  }

  lemma {:induction false} Pow2Small()
    ensures Pow2(12) == 0x1000 && Pow2(13) == 0x2000 && Pow2(14) == 0x4000
    ensures Pow2(17) == 0x2_0000 && Pow2(25) == 0x200_0000 && Pow2(30) == 0x4000_0000
  {
    assert Pow2(5) == 32;
    assert Pow2(10) == 1024;
    assert Pow2(15) == 0x8000;
    assert Pow2(20) == 0x10_0000;
    assert Pow2(25) == 0x200_0000;
  }

  lemma {:induction false} Pow2Split(j: nat, k: nat, n: nat)
    requires j + k == n
    ensures Pow2(j) * Pow2(k) == Pow2(n)
  {
    Pow2Add(j, k);
  }

  /** The conversion is the correctly rounded one, for every bit pattern. */
  lemma {:induction false} F16FromF32Correct(bits: u32)
    ensures IsNarrowing(bits, F16FromF32(bits))
  {
    var exp, man := ExponentField(bits), Fraction(bits);
    DivModUnique(F16FromF32(bits), SIGN, SignBit(bits), F16Magnitude(exp, man));
    if Finite(bits) {
      RoundToHalfNearest(Numerator(bits), Denominator(bits));
      MagnitudeRounds(exp, man, Significand(bits), Exponent(bits));
    }
  }

  lemma {:induction false} MagnitudeRounds(exp: nat, man: nat, m: nat, e: nat)
    requires exp < 0xFF && man < 0x80_0000
    requires m == (if exp == 0 then 0 else 0x80_0000) + man && e == if exp == 0 then 1 else exp
    ensures F16Magnitude(exp, man)
         == RoundToHalf(m * Pow2(if e > 126 then e - 126 else 0), Pow2(if e < 126 then 126 - e else 0))
  {
    var up, down := if e > 126 then e - 126 else 0, if e < 126 then 126 - e else 0;
    if e >= 143 {
      LargeRounds(m, up);
    } else if e >= 113 {
      NormalMagnitude(man, e, up, down);
    } else {
      SmallMagnitude(exp, man, m, e, down);
    }
  }

  lemma {:induction false} NormalMagnitude(man: nat, e: nat, up: nat, down: nat)
    requires man < 0x80_0000 && 113 <= e < 143 && e + down == 126 + up
    ensures F16Magnitude(e, man) == RoundToHalf((0x80_0000 + man) * Pow2(up), Pow2(down))
  {
    NormalRounds(man, e, up, down);
  }

  lemma {:induction false} SmallMagnitude(exp: nat, man: nat, m: nat, e: nat, down: nat)
    requires exp < 0xFF && man < 0x80_0000 && e < 113 && down == 126 - e
    requires m == (if exp == 0 then 0 else 0x80_0000) + man && e == if exp == 0 then 1 else exp
    ensures F16Magnitude(exp, man) == RoundToHalf(m, Pow2(down))
  {
    SmallRounds(m, down);
  }

  lemma {:induction false} LargeRounds(m: nat, k: nat)
    requires m >= 0x80_0000 && k >= 17
    ensures RoundUnbounded(m * Pow2(k), 1) >= INF
  {
    InfinityValue();
    Pow2Small();
    Pow2Monotone(k, 17);
    MulMonotone(0x80_0000, m, 0x2_0000, Pow2(k));
    RoundExact(INF, 1);
    RoundUnboundedMonotone(HalfValue(INF), m * Pow2(k), 1);
  }

  lemma {:induction false} InfinityValue()
    ensures HalfValue(INF) == 0x100_0000_0000
  {
    HalfValueFields(31, 0);
    Pow2Small();
  }

  lemma {:induction false} SmallRounds(m: nat, k: nat)
    requires m < 0x100_0000 && k >= 14
    ensures RoundUnbounded(m, Pow2(k)) == RoundEven(m, Pow2(k)) <= 1024
    ensures k >= 25 ==> RoundEven(m, Pow2(k)) == 0
  {
    Pow2Small();
    Pow2Monotone(k, 14);
    RoundEvenBound(m, Pow2(k), 1024);
    if k >= 25 {
      Pow2Monotone(k, 25);
      DivModUnique(m, Pow2(k), 0, m);
    }
  }

  lemma {:induction false} NormalRounds(man: nat, e: nat, up: nat, down: nat)
    requires man < 0x80_0000 && 113 <= e && e + down == 126 + up
    ensures RoundUnbounded((0x80_0000 + man) * Pow2(up), Pow2(down)) == (e - 112) * 1024 + RoundNormal(man)
  {
    UnitShift(e, up, down);
    var c, u := Pow2(up), Pow2(down);
    SignificandRounds(0x80_0000 + man, c, u, e - 113);
    HiddenBitRounds(man);
  }

  lemma {:induction false} HiddenBitRounds(man: nat)
    requires man < 0x80_0000
    ensures RoundEven(0x80_0000 + man, 0x2000) == 1024 + RoundNormal(man)
  {
    var q, r := Quotient(man, 0x2000);
    DivModUnique(0x80_0000 + man, 0x2000, 1024 + q, r);
  }

  lemma {:induction false} UnitShift(e: nat, up: nat, down: nat)
    requires 113 <= e && e + down == 126 + up
    ensures Pow2(down) * Pow2(e - 113) == 0x2000 * Pow2(up)
  {
    Pow2Split(down, e - 113, 13 + up);
    Pow2Split(13, up, 13 + up);
    Pow2Small();
  }

  /** A 24-bit significand times `c`, in units of `u`, rounds at its 13th bit. */
  lemma {:induction false} SignificandRounds(m: nat, c: nat, u: nat, k: nat)
    requires 0x80_0000 <= m < 0x100_0000 && c > 0 && u > 0
    requires u * Pow2(k) == 0x2000 * c
    ensures RoundUnbounded(m * c, u) == 1024 * k + RoundEven(m, 0x2000)
  {
    MulMonotone(0x80_0000, m, c, c);
    if k > 0 {
      var half := u * Pow2(k - 1);
      assert 2 * half == u * Pow2(k);
      Assoc(2048, u, Pow2(k - 1));
    }
    RoundUnboundedUnwind(m * c, u, k);
    RoundUnboundedScale(m, 0x2000, c);
  }

  /** Every bfloat16 number with unbiased exponent from -14 to 15 survives narrowing exactly. */
  lemma {:induction false} Bf16Lossless(bf16: u16)
    requires 113 <= bf16 / 0x80 % 0x100 <= 142
    ensures Finite(bf16 * 0x1_0000)
    ensures HalfValue(F16FromF32(bf16 * 0x1_0000) % SIGN) * Denominator(bf16 * 0x1_0000)
         == Numerator(bf16 * 0x1_0000)
  {
    var bits := bf16 * 0x1_0000;
    var e, man, m7 := ExponentField(bits), Fraction(bits), bf16 % 0x80;
    Bf16Fields(bf16);
    DivModUnique(F16FromF32(bits), SIGN, SignBit(bits), F16Magnitude(e, man));
    DivModUnique(man, 0x2000, 8 * m7, 0);
    WideFractionFits(e, m7, if e > 126 then e - 126 else 0, if e < 126 then 126 - e else 0);
  }

  lemma {:induction false} Bf16Fields(bf16: u16)
    ensures ExponentField(bf16 * 0x1_0000) == bf16 / 0x80 % 0x100
    ensures Fraction(bf16 * 0x1_0000) == 0x1_0000 * (bf16 % 0x80)
  {
    var q, r := Quotient(bf16, 0x80);
    DivModUnique(bf16 * 0x1_0000, 0x80_0000, q, 0x1_0000 * r);
  }

  lemma {:induction false} WideFractionFits(e: nat, m7: nat, up: nat, down: nat)
    requires 113 <= e && m7 < 0x80 && e + down == 126 + up
    ensures HalfValue((e - 112) * 1024 + 8 * m7) * Pow2(down) == (0x80_0000 + 0x1_0000 * m7) * Pow2(up)
  {
    HalfValueFields(e - 112, 8 * m7);
    UnitShift(e, up, down);
    Regroup(1024 + 8 * m7, Pow2(e - 113), Pow2(down), 0x2000, Pow2(up));
  }

  /** Bfloat16 numbers of magnitude 2^16 or more become infinite. */
  lemma {:induction false} Bf16Overflows(bf16: u16)
    requires 143 <= bf16 / 0x80 % 0x100 < 0xFF
    ensures F16FromF32(bf16 * 0x1_0000) % SIGN == INF
  {
    Bf16Fields(bf16);
    DivModUnique(F16FromF32(bf16 * 0x1_0000), SIGN, SignBit(bf16 * 0x1_0000), INF);
  }

  method ConvertBf16ToFp16(data: seq<byte>) returns (out: seq<byte>)
    ensures |out| == |data| / 2 * 2
    ensures forall i :: 0 <= i < |data| / 2 ==> IsNarrowing(U16At(data, i) * 0x1_0000, U16At(out, i))
  {
    var count := |data| / 2;
    out := [];
    for i := 0 to count
      invariant |out| == 2 * i
      invariant forall j :: 0 <= j < i ==> IsNarrowing(U16At(data, j) * 0x1_0000, U16At(out, j))
    {
      var bits: u16 := U16At(data, i);
      var half := F16FromF32(bits * 0x1_0000);
      F16FromF32Correct(bits * 0x1_0000);
      ghost var before := out;
      out := out + U16ToLe(half);
      assert forall j :: 0 <= j < i ==> U16At(out, j) == U16At(before, j);
      assert U16At(out, i) == half;
    }
  }

  method ConvertF32ToFp16(data: seq<byte>) returns (out: seq<byte>)
    ensures |out| == |data| / 4 * 2
    ensures forall i :: 0 <= i < |data| / 4 ==> IsNarrowing(U32At(data, i), U16At(out, i))
  {
    var count := |data| / 4;
    out := [];
    for i := 0 to count
      invariant |out| == 2 * i
      invariant forall j :: 0 <= j < i ==> IsNarrowing(U32At(data, j), U16At(out, j))
    {
      var bits: u32 := U32At(data, i);
      var half := F16FromF32(bits);
      F16FromF32Correct(bits);
      ghost var before := out;
      out := out + U16ToLe(half);
      assert forall j :: 0 <= j < i ==> U16At(out, j) == U16At(before, j);
      assert U16At(out, i) == half;
    }
  }

  /** The specification leaves no freedom on numbers, so a buffer it accepts is determined. */
  lemma {:induction false} NarrowingUnique(bits: u32, h: u16, k: u16)
    requires Finite(bits) || Fraction(bits) == 0
    requires IsNarrowing(bits, h) && IsNarrowing(bits, k)
    ensures h == k
  {
    if Finite(bits) { NearestEvenUnique(Numerator(bits), Denominator(bits), h % SIGN, k % SIGN); }
  }

  // ----- the fields of a bit pattern

  /** Sign, exponent and fraction as they stand in the 32 bits, and what they say about the number:
      its significand has a leading 1 unless the exponent is 0, which then counts as 1. */
  lemma {:induction false} FieldsAre(bits: u32, sign: nat, exponent: nat, fraction: nat)
    requires sign < 2 && exponent < 256 && fraction < 0x80_0000
    requires bits == sign * 0x8000_0000 + exponent * 0x80_0000 + fraction
    ensures SignBit(bits) == sign && Fraction(bits) == fraction && (Finite(bits) <==> exponent != 255)
    ensures Significand(bits) == fraction + if exponent == 0 then 0 else 0x80_0000
    ensures Exponent(bits) == if exponent == 0 then 1 else exponent
  {
    DivModUnique(bits, 0x8000_0000, sign, exponent * 0x80_0000 + fraction);
    DivModUnique(bits, 0x80_0000, sign * 256 + exponent, fraction);
    DivModUnique(sign * 256 + exponent, 256, sign, exponent);
  }

  /** The fraction that is rounded is the significand times 2^(exponent - 150), in units of 2^-24. */
  lemma {:induction false} FractionIsValue(bits: u32)
    ensures Numerator(bits) * Pow2(126) == Significand(bits) * (Pow2(Exponent(bits)) * Denominator(bits))
  {
    ScaleIsPower(Exponent(bits), if Exponent(bits) > 126 then Exponent(bits) - 126 else 0, if Exponent(bits) < 126 then 126 - Exponent(bits) else 0);
    Regrouped(Significand(bits), Pow2(if Exponent(bits) > 126 then Exponent(bits) - 126 else 0), Pow2(126));
  }

  lemma {:induction false} ScaleIsPower(e: nat, up: nat, down: nat)
    requires e + down == 126 + up
    ensures Pow2(up) * Pow2(126) == Pow2(e) * Pow2(down)
  {
    Pow2Split(up, 126, up + 126);
    Pow2Split(e, down, e + down);
  }

  lemma {:induction false} Regrouped(m: nat, a: nat, b: nat)
    ensures m * a * b == m * (a * b)
  {
  }
}
