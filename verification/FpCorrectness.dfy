/** The multiplier rounds the exact product correctly, in every mode, over the whole format. */
module FpCorrectness {
  import opened Bits
  import opened FpMult
  import opened FloatGrid

  predicate BothNormal(a: Float, b: Float) { IsNormal(a) && IsNormal(b) }

  /** The weight, inside the 48-bit product, of the last place that normalization keeps. */
  function LastPlace(p: nat): nat { if p >= 0x8000_0000_0000 then 0x100_0000 else 0x80_0000 }

  /** The product's exponent after normalization, before any wrap-around. */
  function TrueExponent(a: Float, b: Float): int {
    a.exponent + b.exponent - 127 + if MantissaProduct(a, b) >= 0x8000_0000_0000 then 1 else 0
  }

  lemma HighProductSlices(p: nat)
    requires 0x8000_0000_0000 <= p < 0x1_0000_0000_0000
    ensures p / 0x8000_0000_0000 % 2 == 1
    ensures p / 0x100_0000 % 0x80_0000 == p / 0x100_0000 - 0x80_0000
  {
  }

  lemma LowProductSlices(p: nat)
    requires 0x4000_0000_0000 <= p < 0x8000_0000_0000
    ensures p / 0x8000_0000_0000 % 2 == 0
    ensures p / 0x80_0000 % 0x80_0000 == p / 0x80_0000 - 0x80_0000
  {
  }

  lemma HighProductCut(p: nat)
    ensures p % 0x100_0000 == p / 0x80_0000 % 2 * 0x80_0000 + p % 0x80_0000
  {
  }

  lemma LowProductCut(p: nat)
    ensures p % 0x80_0000 == p / 0x40_0000 % 2 * 0x40_0000 + p % 0x40_0000
  {
  }

  lemma SignedSum(sum: int, carry: nat)
    requires -127 <= sum <= 383 && carry <= 1
    ensures Signed10((sum % 0x400 + carry) % 0x400) == sum + carry
  {
  }

  lemma GuardSticky(cut: int, half: int, rest: int, guard: bool)
    requires cut == (if guard then half else 0) + rest && 0 <= rest < half
    ensures guard <==> 2 * cut >= 2 * half
    ensures rest != 0 <==> cut != 0 && cut != half
  {
  }

  /** Normalization cuts the product in two, and its exponent does not wrap around: the guard and sticky
      bits compare what is cut off with half of the last place kept. */
  lemma NormalizeExact(p: nat, exponentSum: int)
    requires 0x4000_0000_0000 <= p < 0x1_0000_0000_0000 && -127 <= exponentSum <= 383
    ensures var n, cut := Normalize(p, exponentSum % 0x400), p % LastPlace(p);
            && 0x80_0000 + n.mantissa == p / LastPlace(p)
            && n.mantissa < 0x80_0000
            && Signed10(n.exponent) == exponentSum + (if p >= 0x8000_0000_0000 then 1 else 0)
            && (n.guard <==> 2 * cut >= LastPlace(p))
            && (n.sticky <==> cut != 0 && 2 * cut != LastPlace(p))
  {
    var n := Normalize(p, exponentSum % 0x400);
    if p >= 0x8000_0000_0000 {
      HighProductSlices(p);
      HighProductCut(p);
      SignedSum(exponentSum, 1);
      GuardSticky(p % 0x100_0000, 0x80_0000, p % 0x80_0000, n.guard);
    } else {
      LowProductSlices(p);
      LowProductCut(p);
      SignedSum(exponentSum, 0);
      GuardSticky(p % 0x80_0000, 0x40_0000, p % 0x40_0000, n.guard);
    }
  }

  lemma Interchange(w: int, x: int, y: int, z: int)
    ensures (w * x) * (y * z) == (w * y) * (x * z)
  {
    assert (w * x) * (y * z) == w * (x * (y * z)) == w * (y * (x * z)) == (w * y) * (x * z);
  }

  lemma MagnitudeFields(a: Float)
    ensures Magnitude(a) / 0x80_0000 == a.exponent && Magnitude(a) % 0x80_0000 == a.fraction
  {
  }

  lemma OperandValue(a: Float)
    requires IsNormal(a)
    ensures Units(Magnitude(a)) == (0x80_0000 + a.fraction) * Pow2(a.exponent - 1)
  {
    MagnitudeFields(a);
  }

  /** The exact product, on the scale of Scaled, is the whole 48-bit product times a power of two. */
  lemma ExactProductValue(a: Float, b: Float)
    requires BothNormal(a, b)
    ensures ExactProduct(a, b) == MantissaProduct(a, b) * Pow2(a.exponent + b.exponent - 2)
  {
    OperandValue(a);
    OperandValue(b);
    Pow2Sum(a.exponent - 1, b.exponent - 1);
    Interchange(0x80_0000 + a.fraction, Pow2(a.exponent - 1), 0x80_0000 + b.fraction, Pow2(b.exponent - 1));
  }

  // ----- the exact product between its two neighbours -----

  /** The magnitude that the normalized exponent and mantissa spell before rounding. */
  function Truncated(a: Float, b: Float): int {
    TrueExponent(a, b) * 0x80_0000 + NormalizedProduct(a, b).mantissa
  }

  /** One unit in the last place kept, on the scale of Scaled. */
  function Ulp(a: Float, b: Float): nat
    requires BothNormal(a, b)
  {
    LastPlace(MantissaProduct(a, b)) * Pow2(a.exponent + b.exponent - 2)
  }

  function CutOff(a: Float, b: Float): nat
    requires BothNormal(a, b)
  {
    MantissaProduct(a, b) % LastPlace(MantissaProduct(a, b)) * Pow2(a.exponent + b.exponent - 2)
  }

  lemma UlpValue(a: Float, b: Float)
    requires BothNormal(a, b)
    ensures TrueExponent(a, b) + 148 >= 0
    ensures Ulp(a, b) == Pow2(TrueExponent(a, b) + 148)
  {
    var e := a.exponent + b.exponent - 2;
    Pow2Literals();
    Pow2Sum(e, 23);
    Pow2Sum(e, 24);
  }

  lemma NormalizedMantissa(a: Float, b: Float)
    ensures var n, p := NormalizedProduct(a, b), MantissaProduct(a, b);
            && 0x80_0000 + n.mantissa == p / LastPlace(p) < 0x100_0000
            && (n.guard <==> 2 * (p % LastPlace(p)) >= LastPlace(p))
            && (n.sticky <==> p % LastPlace(p) != 0 && 2 * (p % LastPlace(p)) != LastPlace(p))
  {
    NormalizeExact(MantissaProduct(a, b), a.exponent + b.exponent - 127);
  }

  lemma NormalizedExponent(a: Float, b: Float)
    ensures Signed10(NormalizedProduct(a, b).exponent) == TrueExponent(a, b)
  {
    NormalizeExact(MantissaProduct(a, b), a.exponent + b.exponent - 127);
  }

  /** Whatever its exponent, the product is the kept mantissa in units of the last place, plus the cut-off. */
  lemma ProductSplit(a: Float, b: Float)
    requires BothNormal(a, b)
    ensures ExactProduct(a, b) == (0x80_0000 + NormalizedProduct(a, b).mantissa) * Ulp(a, b) + CutOff(a, b)
    ensures 0 <= CutOff(a, b) < Ulp(a, b)
    ensures NormalizedProduct(a, b).guard <==> 2 * CutOff(a, b) >= Ulp(a, b)
    ensures NormalizedProduct(a, b).sticky <==> CutOff(a, b) != 0 && 2 * CutOff(a, b) != Ulp(a, b)
  {
    NormalizedMantissa(a, b);
    ExactProductValue(a, b);
    ScaledDivision(MantissaProduct(a, b), LastPlace(MantissaProduct(a, b)), Pow2(a.exponent + b.exponent - 2));
  }

  lemma TruncatedValue(a: Float, b: Float)
    requires BothNormal(a, b) && 1 <= TrueExponent(a, b) <= 254
    ensures MIN_NORM <= Truncated(a, b) < INFINITY
    ensures Scaled(Truncated(a, b)) == (0x80_0000 + NormalizedProduct(a, b).mantissa) * Ulp(a, b)
    ensures Scaled(Truncated(a, b) + 1) == Scaled(Truncated(a, b)) + Ulp(a, b)
  {
    NormalizedExponent(a, b);
    UlpValue(a, b);
    MagnitudeValue(TrueExponent(a, b), 0x80_0000 + NormalizedProduct(a, b).mantissa);
    ScaledStep(TrueExponent(a, b), 0x80_0000 + NormalizedProduct(a, b).mantissa);
  }

  /** Inside the exponent range, the unrounded magnitude is the exact product's lower neighbour, and guard
      and sticky place the product against the midpoint to the upper one. */
  lemma NormalRange(a: Float, b: Float)
    requires BothNormal(a, b) && 1 <= TrueExponent(a, b) <= 254
    ensures Between(Truncated(a, b), ExactProduct(a, b))
    ensures var n, t, x := NormalizedProduct(a, b), Truncated(a, b), ExactProduct(a, b);
            && (n.guard <==> 2 * x >= Scaled(t) + Scaled(t + 1))
            && (n.guard && !n.sticky <==> 2 * x == Scaled(t) + Scaled(t + 1))
            && (n.guard || n.sticky <==> x != Scaled(t))
  {
    ProductSplit(a, b);
    TruncatedValue(a, b);
  }

  /** Below the exponent range the product is less than the smallest normal number; above it, at least 2^128. */
  lemma OutsideRange(a: Float, b: Float)
    requires BothNormal(a, b)
    ensures TrueExponent(a, b) < 1 ==> 0 < ExactProduct(a, b) < Scaled(MIN_NORM)
    ensures TrueExponent(a, b) > 254 ==> ExactProduct(a, b) >= Scaled(INFINITY)
  {
    ProductSplit(a, b);
    UlpValue(a, b);
    WideProduct(TrueExponent(a, b), 0x80_0000 + NormalizedProduct(a, b).mantissa, CutOff(a, b));
  }

  lemma WideProduct(e: int, m: nat, cut: nat)
    requires e + 148 >= 0 && 0x80_0000 <= m < 0x100_0000 && cut < Pow2(e + 148)
    ensures e < 1 ==> 0 < m * Pow2(e + 148) + cut < Scaled(MIN_NORM)
    ensures e > 254 ==> m * Pow2(e + 148) + cut >= Scaled(INFINITY)
  {
    MagnitudeValue(1, 0x80_0000);
    MagnitudeValue(255, 0x80_0000);
    if e < 1 {
      Pow2Monotone(e + 148, 148);
      AtMost(m, Pow2(e + 148), cut, 0x100_0000, Pow2(148));
    } else if e > 254 {
      Pow2Monotone(403, e + 148);
      MulMonotone(Pow2(403), Pow2(e + 148), 0x80_0000);
      MulMonotone(0x80_0000, m, Pow2(e + 148));
    }
  }

  lemma AtMost(m: nat, u: nat, cut: nat, hi: nat, top: nat)
    requires 0 < m < hi && cut < u <= top
    ensures 0 < m * u + cut < hi * top
  {
    MulMonotone(u, top, hi);
    MulMonotone(m + 1, hi, u);
    assert (m + 1) * u == m * u + u;
    ScaleOrder(0, m, u);
  }

  // ----- rounding and packing -----

  function Increase(a: Float, b: Float, mode: RoundingMode): nat {
    var n := NormalizedProduct(a, b);
    if IncreaseMantissa(0x80_0000 + n.mantissa, mode, n.guard, n.sticky, ProductSign(a, b)) then 1 else 0
  }

  /** The rounded magnitude as an unbounded number: a carry out of the mantissa moves into the exponent. */
  function RoundedMagnitude(a: Float, b: Float, mode: RoundingMode): int {
    Truncated(a, b) + Increase(a, b, mode)
  }

  /** Rounding a mantissa whose carry goes into the exponent is adding to the two together. */
  lemma PostRoundExact(raw: nat, mantissa: nat, increase: nat)
    requires raw < 0x400 && -200 <= Signed10(raw) <= 400 && mantissa < 0x80_0000 && increase <= 1
    ensures var result, sum := (0x80_0000 + mantissa + increase) % 0x200_0000, mantissa + increase;
            && Signed10(PostRoundExponent(raw, result)) == Signed10(raw) + sum / 0x80_0000
            && PostRoundMantissa(result) == 0x80_0000 + sum % 0x80_0000
  {
    if mantissa + increase == 0x80_0000 {
      assert (0x80_0000 + mantissa + increase) / 0x100_0000 == 1;
    } else {
      assert (0x80_0000 + mantissa + increase) / 0x100_0000 == 0;
    }
  }

  /** The overflow test and the packed word agree with exponent and mantissa taken as one number. */
  lemma PackExact(sign: bool, raw: nat, mantissa: nat, increase: nat)
    requires raw < 0x400 && -200 <= Signed10(raw) <= 400 && mantissa < 0x80_0000 && increase <= 1
    ensures var result := (0x80_0000 + mantissa + increase) % 0x200_0000;
            var total := Signed10(raw) * 0x80_0000 + mantissa + increase;
            var exponent := PostRoundExponent(raw, result);
            && (Signed10(exponent) > 254 <==> total >= INFINITY)
            && (0 <= total < INFINITY ==> Magnitude(Pack(sign, exponent, PostRoundMantissa(result))) == total)
  {
    PostRoundExact(raw, mantissa, increase);
    var result := (0x80_0000 + mantissa + increase) % 0x200_0000;
    var exponent := Signed10(PostRoundExponent(raw, result));
    assert Signed10(raw) * 0x80_0000 + mantissa + increase
        == exponent * 0x80_0000 + PostRoundMantissa(result) % 0x80_0000;
  }

  /** The range tests read the unbounded exponent and the unbounded rounded magnitude. */
  lemma RangeTests(a: Float, b: Float, mode: RoundingMode)
    ensures UnderflowBit(a, b) <==> TrueExponent(a, b) < 1
    ensures OverflowBit(a, b, mode) <==> RoundedMagnitude(a, b, mode) >= INFINITY
  {
    NormalizedExponent(a, b);
    OverflowTest(a, b, mode);
  }

  lemma OverflowTest(a: Float, b: Float, mode: RoundingMode)
    ensures OverflowBit(a, b, mode) <==> RoundedMagnitude(a, b, mode) >= INFINITY
  {
    var n := NormalizedProduct(a, b);
    NormalizedExponent(a, b);
    PackExact(ProductSign(a, b), n.exponent, n.mantissa, Increase(a, b, mode));
  }

  /** In range, the packed word spells the rounded magnitude. */
  lemma PackedWord(a: Float, b: Float, mode: RoundingMode)
    ensures ZCalc(a, b, mode).sign == ProductSign(a, b)
    ensures 0 <= RoundedMagnitude(a, b, mode) < INFINITY ==>
              Magnitude(ZCalc(a, b, mode)) == RoundedMagnitude(a, b, mode)
  {
    NormalizedExponent(a, b);
    var n := NormalizedProduct(a, b);
    PackExact(ProductSign(a, b), n.exponent, n.mantissa, Increase(a, b, mode));
  }

  lemma NeighbourChosen(mode: RoundingMode, sign: bool, t: nat, x: nat, mantissa: nat, guard: bool, sticky: bool)
    requires Between(t, x) && mantissa % 2 == t % 2
    requires guard <==> 2 * x >= Scaled(t) + Scaled(t + 1)
    requires guard && !sticky <==> 2 * x == Scaled(t) + Scaled(t + 1)
    requires guard || sticky <==> x != Scaled(t)
    ensures RoundsTo(mode, sign, x, t + if IncreaseMantissa(mantissa, mode, guard, sticky, sign) then 1 else 0)
  {
    if mode == IeeeNear || mode == NearUp {
      NearestChosen(sign, t, x, guard, sticky);
      GridOrder(MIN_NORM, t);
    } else {
      BetweenDirected(t, x);
    }
  }

  lemma NearestChosen(sign: bool, t: nat, x: nat, guard: bool, sticky: bool)
    requires Between(t, x)
    requires guard <==> 2 * x >= Scaled(t) + Scaled(t + 1)
    requires guard && !sticky <==> 2 * x == Scaled(t) + Scaled(t + 1)
    ensures RoundsToEven(x, if guard && (sticky || t % 2 == 1) then t + 1 else t)
    ensures RoundsToUpper(x, sign, if guard && (sticky || !sign) then t + 1 else t)
  {
    BetweenNearest(t, x);
    if guard && !sticky {
      TiedNeighbours(sign, t, x);
    } else {
      SoleNeighbour(sign, x, if guard then t + 1 else t);
    }
  }

  lemma TiedNeighbours(sign: bool, t: nat, x: nat)
    requires Nearest(x, t) && Nearest(x, t + 1) && forall d: nat :: Nearest(x, d) ==> d == t || d == t + 1
    ensures RoundsToEven(x, if t % 2 == 1 then t + 1 else t)
    ensures RoundsToUpper(x, sign, if sign then t else t + 1)
  {
    EvenNeighbour(if t % 2 == 1 then t + 1 else t, x);
    if sign {
      OuterNeighbour(t, t + 1, x);
    } else {
      OuterNeighbour(t + 1, t, x);
    }
  }

  /** Of two nearest magnitudes the upper number is the larger magnitude, or the smaller under a minus sign. */
  lemma OuterNeighbour(c: nat, other: nat, x: nat)
    requires Nearest(x, c) && c != other && forall d: nat :: Nearest(x, d) ==> d == c || d == other
    ensures RoundsToUpper(x, c < other, c)
  {
  }

  lemma EvenNeighbour(c: nat, x: nat)
    requires Nearest(x, c) && c % 2 == 0
    ensures RoundsToEven(x, c)
  {
  }

  lemma SoleNeighbour(sign: bool, x: nat, c: nat)
    requires Nearest(x, c) && forall d: nat :: Nearest(x, d) ==> d == c
    ensures RoundsToEven(x, c) && RoundsToUpper(x, sign, c)
  {
  }

  /** Between two neighbours the increment picks the one the mode asks for. */
  lemma IncrementChoosesNeighbour(a: Float, b: Float, mode: RoundingMode)
    requires BothNormal(a, b) && 1 <= TrueExponent(a, b) <= 254
    ensures MIN_NORM <= RoundedMagnitude(a, b, mode) <= INFINITY
    ensures RoundsTo(mode, ProductSign(a, b), ExactProduct(a, b), RoundedMagnitude(a, b, mode))
  {
    NormalRange(a, b);
    var n, t := NormalizedProduct(a, b), Truncated(a, b);
    SameParity(TrueExponent(a, b), n.mantissa);
    IncrementRounds(mode, ProductSign(a, b), t, ExactProduct(a, b), 0x80_0000 + n.mantissa, n.guard, n.sticky,
                    RoundedMagnitude(a, b, mode));
  }

  lemma IncrementRounds(mode: RoundingMode, sign: bool, t: nat, x: nat, mantissa: nat, guard: bool, sticky: bool,
                        c: nat)
    requires Between(t, x) && mantissa % 2 == t % 2
    requires guard <==> 2 * x >= Scaled(t) + Scaled(t + 1)
    requires guard && !sticky <==> 2 * x == Scaled(t) + Scaled(t + 1)
    requires guard || sticky <==> x != Scaled(t)
    requires c == t + if IncreaseMantissa(mantissa, mode, guard, sticky, sign) then 1 else 0
    ensures MIN_NORM <= c <= INFINITY && RoundsTo(mode, sign, x, c)
  {
    NeighbourChosen(mode, sign, t, x, mantissa, guard, sticky);
  }

  lemma SameParity(exponent: int, mantissa: nat)
    ensures (0x80_0000 + mantissa) % 2 == (exponent * 0x80_0000 + mantissa) % 2
  {
  }

  lemma DirectedBelowRange(x: nat)
    requires 0 < x < Scaled(MIN_NORM)
    ensures RoundsDown(x, 0) && RoundsUp(x, MIN_NORM)
  {
    GridOrderAll();
    assert Scaled(0) == 0;
  }

  lemma BelowRange(mode: RoundingMode, sign: bool, x: nat)
    requires 0 < x < Scaled(MIN_NORM)
    ensures Underflow(sign, mode).z.sign == sign
    ensures RoundsTo(mode, sign, x, Magnitude(Underflow(sign, mode).z))
  {
    UnderflowMagnitude(sign, mode);
    DirectedBelowRange(x);
  }

  lemma UnderflowMagnitude(sign: bool, mode: RoundingMode)
    ensures Underflow(sign, mode).z.sign == sign
    ensures Magnitude(Underflow(sign, mode).z) ==
              match mode
              case IeeeNear => 0
              case NearUp => 0
              case IeeeZero => 0
              case AwayZero => MIN_NORM
              case IeeePinf => if sign then 0 else MIN_NORM
              case IeeeNinf => if sign then MIN_NORM else 0
  {
  }

  lemma NearestAboveRange(x: nat, c: nat)
    requires x >= Scaled(INFINITY)
    ensures Nearest(x, c) <==> c == INFINITY
  {
    forall d: nat | OnGrid(d)
      ensures d != INFINITY ==> Scaled(d) < Scaled(INFINITY)
    {
      GridOrder(d, INFINITY);
    }
    assert OnGrid(INFINITY);
  }

  lemma DirectedAboveRange(x: nat)
    requires x > Scaled(MAX_NORM)
    ensures RoundsDown(x, MAX_NORM) && RoundsUp(x, INFINITY)
  {
    GridOrderAll();
  }

  lemma AboveRange(mode: RoundingMode, sign: bool, x: nat)
    requires x >= Scaled(INFINITY)
    ensures RoundsTo(mode, sign, x, Magnitude(Overflow(sign, mode).z))
  {
    OverflowMagnitude(sign, mode);
    if mode == IeeeNear || mode == NearUp {
      GridOrder(MIN_NORM, INFINITY);
      NearestIsInfinity(sign, x);
    } else {
      GridOrder(MAX_NORM, INFINITY);
      DirectedAboveRange(x);
    }
  }

  lemma NearestIsInfinity(sign: bool, x: nat)
    requires x >= Scaled(INFINITY)
    ensures RoundsToEven(x, INFINITY) && RoundsToUpper(x, sign, INFINITY)
  {
    NearestAboveRange(x, INFINITY);
    forall d: nat | Nearest(x, d)
      ensures d == INFINITY
    {
      NearestAboveRange(x, d);
    }
  }

  lemma OverflowMagnitude(sign: bool, mode: RoundingMode)
    ensures Overflow(sign, mode).z.sign == sign
    ensures Magnitude(Overflow(sign, mode).z) ==
              match mode
              case IeeeNear => INFINITY
              case NearUp => INFINITY
              case AwayZero => INFINITY
              case IeeeZero => MAX_NORM
              case IeeePinf => if sign then MAX_NORM else INFINITY
              case IeeeNinf => if sign then INFINITY else MAX_NORM
  {
  }

  // ----- operands that are not both normal -----

  /** The result and flags when an operand is zero or infinite.  Only zero times infinity is not a number, and it
      gives plus infinity. */
  function SpecialOutput(a: Float, b: Float): Output
    requires !BothNormal(a, b)
  {
    if !IsInfinite(a) && !IsInfinite(b) then Output(Float(ProductSign(a, b), 0, 0), NO_FLAGS.(zero := true))
    else if !IsZero(a) && !IsZero(b) then Output(Float(ProductSign(a, b), 0xFF, 0), NO_FLAGS.(inf := true))
    else Output(Float(false, 0xFF, 0), NO_FLAGS.(inf := true, nan := true))
  }

  /** The classifier reads the exponent field alone. */
  lemma InterpByExponent(a: Float)
    ensures NumInterp(a) == Zero <==> IsZero(a)
    ensures NumInterp(a) == Inf <==> IsInfinite(a)
    ensures NumInterp(a) == Norm <==> IsNormal(a)
  {
  }

  lemma ExceptionBySpecialTable(a: Float, b: Float, zCalc: Float, overflow: bool, underflow: bool, inexact: bool,
                                mode: RoundingMode)
    requires !BothNormal(a, b) && zCalc.sign == ProductSign(a, b)
    ensures Exception(a, b, zCalc, overflow, underflow, inexact, mode) == SpecialOutput(a, b)
  {
    InterpByExponent(a);
    InterpByExponent(b);
  }

  /** The IEEE 754 table for zeros and infinities, as the project simplifies it, whatever the rounding mode. */
  lemma SpecialOperands(a: Float, b: Float, mode: RoundingMode)
    requires !BothNormal(a, b)
    ensures Multiply(a, b, mode) == SpecialOutput(a, b)
  {
    PackedWord(a, b, mode);
    ExceptionBySpecialTable(a, b, ZCalc(a, b, mode), OverflowBit(a, b, mode), UnderflowBit(a, b),
                            RoundedProduct(a, b, mode).inexact, mode);
  }

  // ----- two normal operands -----

  /** Which branch of the exception logic two normal operands take. */
  lemma NormalOutcome(a: Float, b: Float, mode: RoundingMode)
    requires BothNormal(a, b)
    ensures var out := Multiply(a, b, mode);
            if RoundedMagnitude(a, b, mode) >= INFINITY then out == Overflow(ProductSign(a, b), mode)
            else if TrueExponent(a, b) < 1 then out == Underflow(ProductSign(a, b), mode)
            else out == Output(ZCalc(a, b, mode), NO_FLAGS.(inexact := RoundedProduct(a, b, mode).inexact))
  {
    RangeTests(a, b, mode);
    PackedWord(a, b, mode);
  }

  lemma ExponentOfMagnitude(a: Float, b: Float, mode: RoundingMode)
    ensures var e, c := TrueExponent(a, b), RoundedMagnitude(a, b, mode);
            && (e < 1 ==> c <= MIN_NORM)
            && (e > 254 ==> c >= INFINITY)
  {
  }

  lemma TinyOutcome(a: Float, b: Float, mode: RoundingMode)
    requires BothNormal(a, b) && TrueExponent(a, b) < 1
    ensures 0 < ExactProduct(a, b) < Scaled(MIN_NORM)
    ensures Multiply(a, b, mode) == Underflow(ProductSign(a, b), mode)
  {
    OutsideRange(a, b);
    ExponentOfMagnitude(a, b, mode);
    NormalOutcome(a, b, mode);
  }

  lemma HugeOutcome(a: Float, b: Float, mode: RoundingMode)
    requires BothNormal(a, b) && RoundedMagnitude(a, b, mode) >= INFINITY
    ensures ExactProduct(a, b) > Scaled(MAX_NORM)
    ensures Multiply(a, b, mode) == Overflow(ProductSign(a, b), mode)
    ensures RoundsTo(mode, ProductSign(a, b), ExactProduct(a, b), Magnitude(Overflow(ProductSign(a, b), mode).z))
    ensures ExactProduct(a, b) >= Scaled(INFINITY) || Magnitude(Overflow(ProductSign(a, b), mode).z) == INFINITY
  {
    NormalOutcome(a, b, mode);
    HugeRounding(a, b, mode);
  }

  lemma HugeRounding(a: Float, b: Float, mode: RoundingMode)
    requires BothNormal(a, b) && RoundedMagnitude(a, b, mode) >= INFINITY
    ensures ExactProduct(a, b) > Scaled(MAX_NORM)
    ensures RoundsTo(mode, ProductSign(a, b), ExactProduct(a, b), Magnitude(Overflow(ProductSign(a, b), mode).z))
    ensures ExactProduct(a, b) >= Scaled(INFINITY) || Magnitude(Overflow(ProductSign(a, b), mode).z) == INFINITY
  {
    if TrueExponent(a, b) > 254 {
      OutsideRange(a, b);
      GridOrder(MAX_NORM, INFINITY);
      AboveRange(mode, ProductSign(a, b), ExactProduct(a, b));
    } else {
      CarryToInfinity(a, b, mode);
    }
  }

  lemma CarryToInfinity(a: Float, b: Float, mode: RoundingMode)
    requires BothNormal(a, b) && TrueExponent(a, b) <= 254 && RoundedMagnitude(a, b, mode) >= INFINITY
    ensures RoundsTo(mode, ProductSign(a, b), ExactProduct(a, b), INFINITY)
    ensures ExactProduct(a, b) > Scaled(MAX_NORM)
    ensures Magnitude(Overflow(ProductSign(a, b), mode).z) == INFINITY
  {
    ExponentOfMagnitude(a, b, mode);
    IncrementChoosesNeighbour(a, b, mode);
    RoundedToInfinity(mode, ProductSign(a, b), ExactProduct(a, b));
    NormalRange(a, b);
  }

  /** A mode that rounds a value to infinity is one whose overflow result is infinity. */
  lemma RoundedToInfinity(mode: RoundingMode, sign: bool, x: nat)
    requires RoundsTo(mode, sign, x, INFINITY)
    ensures Magnitude(Overflow(sign, mode).z) == INFINITY
    ensures x > Scaled(MAX_NORM) || IsNearestMode(mode)
  {
    assert FiniteOnGrid(MAX_NORM);
    assert AtLeast(MAX_NORM, x) <==> x <= Scaled(MAX_NORM);
  }

  predicate IsNearestMode(mode: RoundingMode) { mode == IeeeNear || mode == NearUp }

  lemma PlainOutcome(a: Float, b: Float, mode: RoundingMode)
    requires BothNormal(a, b) && TrueExponent(a, b) >= 1 && RoundedMagnitude(a, b, mode) < INFINITY
    ensures var x, c, out := ExactProduct(a, b), RoundedMagnitude(a, b, mode), Multiply(a, b, mode);
            && MIN_NORM <= c && RoundsTo(mode, ProductSign(a, b), x, c)
            && Scaled(MIN_NORM) <= x < Scaled(INFINITY)
            && out.z.sign == ProductSign(a, b) && Magnitude(out.z) == c
            && out.flags == NO_FLAGS.(inexact := x != Scaled(c))
  {
    ExponentOfMagnitude(a, b, mode);
    NormalOutcome(a, b, mode);
    IncrementChoosesNeighbour(a, b, mode);
    PackedWord(a, b, mode);
    InexactMeaning(a, b, mode);
  }

  lemma InexactMeaning(a: Float, b: Float, mode: RoundingMode)
    requires BothNormal(a, b) && 1 <= TrueExponent(a, b) <= 254
    ensures RoundedMagnitude(a, b, mode) >= 0
    ensures RoundedProduct(a, b, mode).inexact <==> ExactProduct(a, b) != Scaled(RoundedMagnitude(a, b, mode))
    ensures Scaled(MIN_NORM) <= ExactProduct(a, b) < Scaled(INFINITY)
  {
    var n := NormalizedProduct(a, b);
    NormalRange(a, b);
    InexactBetween(Truncated(a, b), ExactProduct(a, b), RoundedMagnitude(a, b, mode), n.guard || n.sticky);
  }

  lemma InexactBetween(t: nat, x: nat, c: nat, inexact: bool)
    requires Between(t, x) && (inexact <==> x != Scaled(t)) && (c == t || (c == t + 1 && inexact))
    ensures inexact <==> x != Scaled(c)
    ensures Scaled(MIN_NORM) <= x < Scaled(INFINITY)
  {
    GridOrder(MIN_NORM, t);
    GridOrder(t + 1, INFINITY);
  }

  /** The sign of the product, and the magnitude that the mode's definition assigns to the exact product. */
  ghost predicate CorrectlyRounded(a: Float, b: Float, mode: RoundingMode, z: Float) {
    z.sign == ProductSign(a, b) && RoundsTo(mode, ProductSign(a, b), ExactProduct(a, b), Magnitude(z))
  }

  lemma TinyRounding(a: Float, b: Float, mode: RoundingMode)
    requires BothNormal(a, b) && TrueExponent(a, b) < 1
    ensures CorrectlyRounded(a, b, mode, Multiply(a, b, mode).z)
  {
    TinyOutcome(a, b, mode);
    BelowRange(mode, ProductSign(a, b), ExactProduct(a, b));
  }

  lemma HugeCorrect(a: Float, b: Float, mode: RoundingMode)
    requires BothNormal(a, b) && RoundedMagnitude(a, b, mode) >= INFINITY
    ensures CorrectlyRounded(a, b, mode, Multiply(a, b, mode).z)
  {
    HugeOutcome(a, b, mode);
    OverflowMagnitude(ProductSign(a, b), mode);
  }

  lemma PlainCorrect(a: Float, b: Float, mode: RoundingMode)
    requires BothNormal(a, b) && TrueExponent(a, b) >= 1 && RoundedMagnitude(a, b, mode) < INFINITY
    ensures CorrectlyRounded(a, b, mode, Multiply(a, b, mode).z)
  {
    PlainOutcome(a, b, mode);
  }

  /** The main theorem: for normal operands the result is the mode's rounding of the exact product,
      overflow and underflow included. */
  lemma CorrectRounding(a: Float, b: Float, mode: RoundingMode)
    requires BothNormal(a, b)
    ensures CorrectlyRounded(a, b, mode, Multiply(a, b, mode).z)
  {
    if TrueExponent(a, b) < 1 {
      TinyRounding(a, b, mode);
    } else if RoundedMagnitude(a, b, mode) >= INFINITY {
      HugeCorrect(a, b, mode);
    } else {
      PlainCorrect(a, b, mode);
    }
  }
}
