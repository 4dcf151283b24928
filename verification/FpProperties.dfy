/** What correct rounding gives the multiplier's users: brackets, monotonicity, honest flags, symmetry. */
module FpProperties {
  import opened Bits
  import opened FpMult
  import opened FloatGrid
  import opened FpCorrectness

  // ----- directed modes -----

  /** The next magnitude of the format. */
  function Successor(c: nat): nat { if c == 0 then MIN_NORM else c + 1 }

  lemma DownUpAdjacent(x: nat, c: nat, d: nat)
    requires RoundsDown(x, c) && RoundsUp(x, d)
    ensures c == d <==> x == Scaled(c)
    ensures c != d ==> d == Successor(c)
  {
    GridOrderAll();
    var next := Successor(c);
    assert OnGrid(next);
    assert FiniteOnGrid(next) ==> Scaled(next) > x;
    assert AtLeast(next, x);
    assert AtLeast(c, x) <==> x == Scaled(c);
    assert forall e: nat :: AtLeast(e, x) ==> e >= c;
  }

  /** The results toward zero and away from zero enclose the exact product; they coincide when it is
      representable and are neighbours in the format otherwise. */
  lemma DirectedModesBracket(a: Float, b: Float)
    requires BothNormal(a, b)
    ensures var lo, hi := Magnitude(Multiply(a, b, IeeeZero).z), Magnitude(Multiply(a, b, AwayZero).z);
            var x := ExactProduct(a, b);
            && Scaled(lo) <= x && (hi == INFINITY || x <= Scaled(hi))
            && (lo == hi <==> x == Scaled(lo))
            && (lo != hi ==> hi == Successor(lo))
    ensures var down, up := Multiply(a, b, IeeeNinf).z, Multiply(a, b, IeeePinf).z;
            if ProductSign(a, b)
            then down == Multiply(a, b, AwayZero).z && up == Multiply(a, b, IeeeZero).z
            else down == Multiply(a, b, IeeeZero).z && up == Multiply(a, b, AwayZero).z
  {
    CorrectRounding(a, b, IeeeZero);
    CorrectRounding(a, b, AwayZero);
    CorrectRounding(a, b, IeeeNinf);
    CorrectRounding(a, b, IeeePinf);
    var s, x := ProductSign(a, b), ExactProduct(a, b);
    var lo, hi := Magnitude(Multiply(a, b, IeeeZero).z), Magnitude(Multiply(a, b, AwayZero).z);
    DownUpAdjacent(x, lo, hi);
    DirectedUnique(x, lo, Magnitude(Multiply(a, b, if s then IeeePinf else IeeeNinf).z));
    DirectedUnique(x, hi, Magnitude(Multiply(a, b, if s then IeeeNinf else IeeePinf).z));
    SameFloat(Multiply(a, b, IeeeZero).z, Multiply(a, b, if s then IeeePinf else IeeeNinf).z);
    SameFloat(Multiply(a, b, AwayZero).z, Multiply(a, b, if s then IeeeNinf else IeeePinf).z);
  }

  lemma DirectedUnique(x: nat, c: nat, d: nat)
    ensures RoundsDown(x, c) && RoundsDown(x, d) ==> c == d
    ensures RoundsUp(x, c) && RoundsUp(x, d) ==> c == d
  {
  }

  lemma SameFloat(v: Float, w: Float)
    ensures v.sign == w.sign && Magnitude(v) == Magnitude(w) <==> v == w
  {
  }

  // ----- nearest modes -----

  /** Below the smallest normal number the two candidates are zero and that number. */
  lemma NearestBelowRange(x: nat)
    requires x < Scaled(MIN_NORM)
    ensures Nearest(x, 0) <==> 2 * x <= Scaled(MIN_NORM)
  {
    GridOrderAll();
    assert Scaled(0) == 0;
    assert OnGrid(0) && OnGrid(MIN_NORM);
  }

  /** Flushing is decided before rounding, so the nearest modes return a magnitude nearest to the product
      unless the product lies strictly between half the smallest normal number and that number. */
  lemma NearestModesNearestIff(a: Float, b: Float, mode: RoundingMode)
    requires BothNormal(a, b) && IsNearestMode(mode)
    ensures var x := ExactProduct(a, b);
            Nearest(x, Magnitude(Multiply(a, b, mode).z)) <==> !(Scaled(MIN_NORM) < 2 * x < 2 * Scaled(MIN_NORM))
  {
    CorrectRounding(a, b, mode);
    if ExactProduct(a, b) < Scaled(MIN_NORM) {
      NearestBelowRange(ExactProduct(a, b));
    }
  }

  /** Witness of the exception: 1.5 * 2^-126 times 0.5 is nearer to 2^-126, yet the result is zero. */
  lemma FlushedToFarEnd(a: Float, b: Float)
    requires a == Float(false, 1, 0x40_0000) && b == Float(false, 126, 0)
    ensures Multiply(a, b, IeeeNear)
         == Output(Float(false, 0, 0), NO_FLAGS.(tiny := true, inexact := true, zero := true))
    ensures !Nearest(ExactProduct(a, b), Magnitude(Multiply(a, b, IeeeNear).z))
  {
    assert MantissaProduct(a, b) == 0x6000_0000_0000 && TrueExponent(a, b) == 0;
    TinyOutcome(a, b, IeeeNear);
    ExactProductValue(a, b);
    MagnitudeValue(1, 0x80_0000);
    Pow2Literals();
    Pow2Sum(125, 24);
    assert 0x80_0000 * (Pow2(125) * 0x100_0000) == 0x8000_0000_0000 * Pow2(125);
    NearestModesNearestIff(a, b, IeeeNear);
  }

  lemma NearestReachesInfinity(x: nat, c: nat)
    requires RoundsToEven(x, c) || (exists sign: bool :: RoundsToUpper(x, sign, c))
    ensures 2 * x > Scaled(MAX_NORM) + Scaled(INFINITY) ==> c == INFINITY
    ensures 2 * x < Scaled(MAX_NORM) + Scaled(INFINITY) ==> c != INFINITY
  {
    GridOrderAll();
    assert OnGrid(MAX_NORM) && OnGrid(INFINITY);
  }

  lemma NearestInfinityIff(mode: RoundingMode, sign: bool, x: nat, c: nat)
    requires IsNearestMode(mode) && RoundsTo(mode, sign, x, c)
    ensures var halfway := Scaled(MAX_NORM) + Scaled(INFINITY);
            c == INFINITY <==> 2 * x > halfway || (2 * x == halfway && !(mode == NearUp && sign))
  {
    GridOrder(MIN_NORM, MAX_NORM);
    GridOrder(MAX_NORM, INFINITY);
    if x >= Scaled(MIN_NORM) {
      assert mode == IeeeNear ==> RoundsToEven(x, c);
      assert mode == NearUp ==> RoundsToUpper(x, sign, c);
      NearestReachesInfinity(x, c);
      if 2 * x == Scaled(MAX_NORM) + Scaled(INFINITY) {
        BetweenNearest(MAX_NORM, x);
        assert MAX_NORM + 1 == INFINITY;
      }
    }
  }

  /** The nearest modes return infinity exactly from the point where rounding to 24 bits with an unbounded
      exponent reaches 2^128: from halfway past the largest finite number, the halfway point itself going
      to infinity except under near_up with a negative result. */
  lemma NearestModesOverflowIff(a: Float, b: Float, mode: RoundingMode)
    requires BothNormal(a, b) && IsNearestMode(mode)
    ensures var x, halfway := ExactProduct(a, b), Scaled(MAX_NORM) + Scaled(INFINITY);
            Magnitude(Multiply(a, b, mode).z) == INFINITY <==>
              2 * x > halfway || (2 * x == halfway && !(mode == NearUp && ProductSign(a, b)))
  {
    CorrectRounding(a, b, mode);
    NearestInfinityIff(mode, ProductSign(a, b), ExactProduct(a, b), Magnitude(Multiply(a, b, mode).z));
  }

  // ----- monotonicity -----

  lemma UnitsMonotone(c: nat, d: nat)
    requires c <= d <= INFINITY
    ensures Units(c) <= Units(d)
  {
    if MIN_NORM <= c < d {
      UnitsOrder(c, d);
    }
  }

  /** A larger operand magnitude never gives a smaller result magnitude: across zero, underflow, the normal
      numbers, carries, overflow and infinity. */
  lemma ResultMonotone(a: Float, a': Float, b: Float, mode: RoundingMode)
    requires a.sign == a'.sign && Magnitude(a) <= Magnitude(a')
    ensures Magnitude(Multiply(a, b, mode).z) <= Magnitude(Multiply(a', b, mode).z)
  {
    if !IsNormal(b) {
      SpecialFactorMonotone(a, a', b, mode);
    } else if BothNormal(a, b) && BothNormal(a', b) {
      NormalMonotone(a, a', b, mode);
    } else {
      SpecialMonotone(a, a', b, mode);
    }
  }

  /** By zero a number goes to zero and infinity to infinity; by infinity everything goes to infinity. */
  lemma SpecialFactorMonotone(a: Float, a': Float, b: Float, mode: RoundingMode)
    requires !IsNormal(b) && Magnitude(a) <= Magnitude(a')
    ensures Magnitude(Multiply(a, b, mode).z) <= Magnitude(Multiply(a', b, mode).z)
  {
    SpecialFactor(a, b, mode);
    SpecialFactor(a', b, mode);
    if IsInfinite(a) {
      InfinityAbove(a, a');
    }
  }

  lemma SpecialFactor(a: Float, b: Float, mode: RoundingMode)
    requires !IsNormal(b)
    ensures Magnitude(Multiply(a, b, mode).z) == if IsInfinite(b) || IsInfinite(a) then INFINITY else 0
  {
    SpecialOperands(a, b, mode);
    SpecialOutputMagnitude(a, b);
  }

  lemma SpecialOutputMagnitude(a: Float, b: Float)
    requires !IsNormal(b)
    ensures Magnitude(SpecialOutput(a, b).z) == if IsInfinite(b) || IsInfinite(a) then INFINITY else 0
  {
  }

  lemma InfinityAbove(a: Float, a': Float)
    requires Magnitude(a) <= Magnitude(a') && IsInfinite(a)
    ensures IsInfinite(a')
  {
  }

  lemma NormalMonotone(a: Float, a': Float, b: Float, mode: RoundingMode)
    requires BothNormal(a, b) && BothNormal(a', b) && a.sign == a'.sign && Magnitude(a) <= Magnitude(a')
    ensures Magnitude(Multiply(a, b, mode).z) <= Magnitude(Multiply(a', b, mode).z)
  {
    CorrectRounding(a, b, mode);
    CorrectRounding(a', b, mode);
    UnitsMonotone(Magnitude(a), Magnitude(a'));
    MulMonotone(Units(Magnitude(a)), Units(Magnitude(a')), Units(Magnitude(b)));
    RoundsToMonotone(mode, ProductSign(a, b), ExactProduct(a, b), ExactProduct(a', b),
                     Magnitude(Multiply(a, b, mode).z), Magnitude(Multiply(a', b, mode).z));
  }

  lemma SpecialMonotone(a: Float, a': Float, b: Float, mode: RoundingMode)
    requires IsNormal(b) && Magnitude(a) <= Magnitude(a') && !(BothNormal(a, b) && BothNormal(a', b))
    ensures Magnitude(Multiply(a, b, mode).z) <= Magnitude(Multiply(a', b, mode).z)
  {
    if IsZero(a) {
      SpecialMagnitude(a, b, mode);
    } else {
      assert IsInfinite(a');
      ResultOnGrid(a, b, mode);
      SpecialMagnitude(a', b, mode);
    }
  }

  lemma SpecialMagnitude(a: Float, b: Float, mode: RoundingMode)
    requires IsNormal(b)
    ensures IsZero(a) ==> Magnitude(Multiply(a, b, mode).z) == 0
    ensures IsInfinite(a) ==> Magnitude(Multiply(a, b, mode).z) == INFINITY
  {
    if !IsNormal(a) {
      SpecialOperands(a, b, mode);
    }
  }

  /** No denormal and no NaN ever leaves the multiplier. */
  lemma ResultOnGrid(a: Float, b: Float, mode: RoundingMode)
    ensures OnGrid(Magnitude(Multiply(a, b, mode).z))
  {
    if BothNormal(a, b) {
      CorrectRounding(a, b, mode);
    } else {
      SpecialOperands(a, b, mode);
    }
  }

  // ----- status flags -----

  /** What the six flags promise about the exact product x, the result, and the kinds of operands. */
  predicate FlagsTell(out: Output, normal: bool, zeroTimesInf: bool, x: nat) {
    var c := Magnitude(out.z);
    && (out.flags.zero <==> out.z.exponent == 0)
    && (out.flags.inf <==> out.z.exponent == 0xFF)
    && (out.flags.nan <==> zeroTimesInf)
    && (out.flags.tiny <==> normal && x < Scaled(MIN_NORM))
    && (out.flags.huge <==> normal && (x >= Scaled(INFINITY) || c == INFINITY))
    && (out.flags.inexact <==> normal && (c == INFINITY || x != Scaled(c)))
  }

  predicate ZeroTimesInf(a: Float, b: Float) {
    (IsZero(a) && IsInfinite(b)) || (IsInfinite(a) && IsZero(b))
  }

  /** The flags of the multiplier's output tell the truth about its operands and result. */
  predicate FlagsRight(a: Float, b: Float, out: Output) {
    FlagsTell(out, BothNormal(a, b), ZeroTimesInf(a, b), ExactProduct(a, b))
  }

  /** Every flag says exactly what its name promises, on all operands and in every mode. */
  lemma FlagsExact(a: Float, b: Float, mode: RoundingMode)
    ensures FlagsRight(a, b, Multiply(a, b, mode))
  {
    if !BothNormal(a, b) {
      SpecialFlags(a, b, mode);
    } else if TrueExponent(a, b) < 1 {
      TinyFlags(a, b, mode);
    } else if RoundedMagnitude(a, b, mode) >= INFINITY {
      HugeFlags(a, b, mode);
    } else {
      PlainFlags(a, b, mode);
    }
  }

  lemma SpecialFlags(a: Float, b: Float, mode: RoundingMode)
    requires !BothNormal(a, b)
    ensures FlagsRight(a, b, Multiply(a, b, mode))
  {
    SpecialOperands(a, b, mode);
  }

  lemma TinyFlags(a: Float, b: Float, mode: RoundingMode)
    requires BothNormal(a, b) && TrueExponent(a, b) < 1
    ensures FlagsRight(a, b, Multiply(a, b, mode))
  {
    TinyOutcome(a, b, mode);
    UnderflowRight(a, b, mode, Multiply(a, b, mode));
  }

  lemma UnderflowRight(a: Float, b: Float, mode: RoundingMode, out: Output)
    requires BothNormal(a, b) && 0 < ExactProduct(a, b) < Scaled(MIN_NORM) && out == Underflow(ProductSign(a, b), mode)
    ensures FlagsRight(a, b, out)
  {
    UnderflowTells(ProductSign(a, b), mode, ExactProduct(a, b));
    NormalRight(a, b, out, ExactProduct(a, b));
  }

  lemma NormalRight(a: Float, b: Float, out: Output, x: nat)
    requires BothNormal(a, b) && x == ExactProduct(a, b) && FlagsTell(out, true, false, x)
    ensures FlagsRight(a, b, out)
  {
    assert !ZeroTimesInf(a, b);
  }

  lemma UnderflowTells(sign: bool, mode: RoundingMode, x: nat)
    requires 0 < x < Scaled(MIN_NORM)
    ensures FlagsTell(Underflow(sign, mode), true, false, x)
  {
    UnderflowFlags(sign, mode);
    GridOrder(MIN_NORM, INFINITY);
    assert Scaled(0) == 0;
  }

  lemma UnderflowFlags(sign: bool, mode: RoundingMode)
    ensures var out := Underflow(sign, mode);
            && out.flags == NO_FLAGS.(tiny := true, inexact := true, zero := out.z.exponent == 0)
            && out.z.exponent != 0xFF && Magnitude(out.z) == if out.flags.zero then 0 else MIN_NORM
  {
  }

  lemma HugeFlags(a: Float, b: Float, mode: RoundingMode)
    requires BothNormal(a, b) && RoundedMagnitude(a, b, mode) >= INFINITY
    ensures FlagsRight(a, b, Multiply(a, b, mode))
  {
    HugeOutcome(a, b, mode);
    OverflowRight(a, b, mode, Multiply(a, b, mode));
  }

  lemma OverflowRight(a: Float, b: Float, mode: RoundingMode, out: Output)
    requires BothNormal(a, b) && ExactProduct(a, b) > Scaled(MAX_NORM) && out == Overflow(ProductSign(a, b), mode)
    requires ExactProduct(a, b) >= Scaled(INFINITY) || Magnitude(out.z) == INFINITY
    ensures FlagsRight(a, b, out)
  {
    OverflowTells(ProductSign(a, b), mode, ExactProduct(a, b));
    NormalRight(a, b, out, ExactProduct(a, b));
  }

  lemma OverflowTells(sign: bool, mode: RoundingMode, x: nat)
    requires x > Scaled(MAX_NORM) && (x >= Scaled(INFINITY) || Magnitude(Overflow(sign, mode).z) == INFINITY)
    ensures FlagsTell(Overflow(sign, mode), true, false, x)
  {
    OverflowFlags(sign, mode);
    GridOrder(MIN_NORM, MAX_NORM);
  }

  lemma OverflowFlags(sign: bool, mode: RoundingMode)
    ensures var out := Overflow(sign, mode);
            && out.flags == NO_FLAGS.(huge := true, inexact := true, inf := out.z.exponent == 0xFF)
            && out.z.exponent != 0 && Magnitude(out.z) == if out.flags.inf then INFINITY else MAX_NORM
  {
  }

  lemma PlainFlags(a: Float, b: Float, mode: RoundingMode)
    requires BothNormal(a, b) && TrueExponent(a, b) >= 1 && RoundedMagnitude(a, b, mode) < INFINITY
    ensures FlagsRight(a, b, Multiply(a, b, mode))
  {
    PlainOutcome(a, b, mode);
    PlainTells(Multiply(a, b, mode), ExactProduct(a, b));
  }

  lemma PlainTells(out: Output, x: nat)
    requires MIN_NORM <= Magnitude(out.z) < INFINITY && Scaled(MIN_NORM) <= x < Scaled(INFINITY)
    requires out.flags == NO_FLAGS.(inexact := x != Scaled(Magnitude(out.z)))
    ensures FlagsTell(out, true, false, x)
  {
  }

  /** Bit i of the status output, and the order in which fp_mult packs the flags. */
  predicate StatusBit(status: nat, i: nat)
    requires i < 8
  {
    status / [1, 2, 4, 8, 16, 32, 64, 128][i] % 2 == 1
  }

  lemma StatusPacking(f: Flags)
    ensures var s := StatusByte(f);
            && StatusBit(s, 0) == f.zero && StatusBit(s, 1) == f.inf && StatusBit(s, 2) == f.nan
            && StatusBit(s, 3) == f.tiny && StatusBit(s, 4) == f.huge && StatusBit(s, 5) == f.inexact
            && !StatusBit(s, 6) && !StatusBit(s, 7)
  {
    SixBits(One(f.zero), One(f.inf), One(f.nan), One(f.tiny), One(f.huge), One(f.inexact), StatusByte(f));
  }

  function One(b: bool): (x: nat)
    ensures x <= 1
  {
    if b then 1 else 0
  }

  lemma SixBits(zero: nat, inf: nat, nan: nat, tiny: nat, huge: nat, inexact: nat, s: nat)
    requires zero <= 1 && inf <= 1 && nan <= 1 && tiny <= 1 && huge <= 1 && inexact <= 1
    requires s == zero + 2 * inf + 4 * nan + 8 * tiny + 16 * huge + 32 * inexact
    ensures s / 1 % 2 == zero && s / 2 % 2 == inf && s / 4 % 2 == nan && s / 8 % 2 == tiny
    ensures s / 16 % 2 == huge && s / 32 % 2 == inexact && s / 64 == 0 && s / 128 == 0
  {
    BitAt(s, 1, inf + 2 * nan + 4 * tiny + 8 * huge + 16 * inexact, zero, 0);
    BitAt(s, 2, nan + 2 * tiny + 4 * huge + 8 * inexact, inf, zero);
    BitAt(s, 4, tiny + 2 * huge + 4 * inexact, nan, zero + 2 * inf);
    BitAt(s, 8, huge + 2 * inexact, tiny, zero + 2 * inf + 4 * nan);
    BitAt(s, 16, inexact, huge, zero + 2 * inf + 4 * nan + 8 * tiny);
    BitAt(s, 32, 0, inexact, zero + 2 * inf + 4 * nan + 8 * tiny + 16 * huge);
  }

  /** What the testbench asserts of every output. */
  predicate AssertionsHold(out: Output) {
    var f, c := out.flags, Magnitude(out.z);
    && !(f.zero && f.inf)
    && (f.nan ==> !f.zero && !f.inexact && !f.huge && !f.tiny)
    && !(f.tiny && f.inf) && !(f.huge && f.zero) && !(f.huge && f.tiny)
    && (f.huge ==> c == INFINITY || c == MAX_NORM)
    && (f.tiny ==> c == 0 || c == MIN_NORM)
  }

  lemma OverflowAssertions(sign: bool, mode: RoundingMode)
    ensures AssertionsHold(Overflow(sign, mode))
  {
    OverflowFlags(sign, mode);
  }

  lemma UnderflowAssertions(sign: bool, mode: RoundingMode)
    ensures AssertionsHold(Underflow(sign, mode))
  {
    UnderflowFlags(sign, mode);
  }

  lemma SpecialAssertions(a: Float, b: Float)
    requires !BothNormal(a, b)
    ensures AssertionsHold(SpecialOutput(a, b))
  {
  }

  lemma PlainAssertions(a: Float, b: Float, mode: RoundingMode)
    requires BothNormal(a, b) && TrueExponent(a, b) >= 1 && RoundedMagnitude(a, b, mode) < INFINITY
    ensures AssertionsHold(Multiply(a, b, mode))
  {
    PlainOutcome(a, b, mode);
  }

  lemma TinyAssertions(a: Float, b: Float, mode: RoundingMode)
    requires BothNormal(a, b) && TrueExponent(a, b) < 1
    ensures AssertionsHold(Multiply(a, b, mode))
  {
    UnderflowAssertions(ProductSign(a, b), mode);
    TinyOutcome(a, b, mode);
  }

  lemma HugeAssertions(a: Float, b: Float, mode: RoundingMode)
    requires BothNormal(a, b) && RoundedMagnitude(a, b, mode) >= INFINITY
    ensures AssertionsHold(Multiply(a, b, mode))
  {
    OverflowAssertions(ProductSign(a, b), mode);
    HugeOutcome(a, b, mode);
  }

  lemma SpecialOperandAssertions(a: Float, b: Float, mode: RoundingMode)
    requires !BothNormal(a, b)
    ensures AssertionsHold(Multiply(a, b, mode))
  {
    SpecialOperands(a, b, mode);
    SpecialAssertions(a, b);
  }

  /** The assertions of the testbench hold for every pair of operands and every mode. */
  lemma TestbenchAssertions(a: Float, b: Float, mode: RoundingMode)
    ensures AssertionsHold(Multiply(a, b, mode))
  {
    if !BothNormal(a, b) {
      SpecialOperandAssertions(a, b, mode);
    } else if TrueExponent(a, b) < 1 {
      TinyAssertions(a, b, mode);
    } else if RoundedMagnitude(a, b, mode) >= INFINITY {
      HugeAssertions(a, b, mode);
    } else {
      PlainAssertions(a, b, mode);
    }
  }

  // ----- symmetry -----

  lemma ProductsCommute(a: Float, b: Float)
    ensures MantissaProduct(a, b) == MantissaProduct(b, a)
  {
  }

  /** Swapping the operands changes nothing. */
  lemma OperandsCommute(a: Float, b: Float, mode: RoundingMode)
    ensures Multiply(a, b, mode) == Multiply(b, a, mode)
  {
    ProductsCommute(a, b);
  }

  function Negate(a: Float): Float { a.(sign := !a.sign) }

  /** The mode that does to -x what the given mode does to x; the other modes ignore signs, or are near_up. */
  function Mirror(mode: RoundingMode): RoundingMode {
    match mode
    case IeeePinf => IeeeNinf
    case IeeeNinf => IeeePinf
    case _ => mode
  }

  /** The product lies halfway between two neighbours inside the normal range. */
  predicate HalfwayTie(a: Float, b: Float) {
    BothNormal(a, b) && TrueExponent(a, b) >= 1 && Truncated(a, b) < INFINITY
    && NormalizedProduct(a, b).guard && !NormalizedProduct(a, b).sticky
  }

  lemma HalfwayTieMeaning(a: Float, b: Float)
    requires BothNormal(a, b) && 1 <= TrueExponent(a, b) <= 254
    ensures MIN_NORM <= Truncated(a, b) < INFINITY
    ensures HalfwayTie(a, b) <==>
              2 * ExactProduct(a, b) == Scaled(Truncated(a, b)) + Scaled(Truncated(a, b) + 1)
  {
    NormalRange(a, b);
  }

  lemma NegatedWires(a: Float, b: Float, mode: RoundingMode)
    ensures ProductSign(Negate(a), b) == !ProductSign(a, b)
    ensures NormalizedProduct(Negate(a), b) == NormalizedProduct(a, b)
    ensures TrueExponent(Negate(a), b) == TrueExponent(a, b)
    ensures var n := NormalizedProduct(a, b);
            RoundedMagnitude(Negate(a), b, Mirror(mode)) ==
              RoundedMagnitude(a, b, mode)
              + (if mode == NearUp && n.guard && !n.sticky then (if ProductSign(a, b) then 1 else -1) else 0)
  {
    NegatedProduct(a, b);
    var n := NormalizedProduct(a, b);
    MirroredIncrement(0x80_0000 + n.mantissa, mode, n.guard, n.sticky, ProductSign(a, b));
  }

  lemma NegatedProduct(a: Float, b: Float)
    ensures MantissaProduct(Negate(a), b) == MantissaProduct(a, b)
    ensures NormalizedProduct(Negate(a), b) == NormalizedProduct(a, b)
    ensures TrueExponent(Negate(a), b) == TrueExponent(a, b)
  {
    assert Negate(a).fraction == a.fraction && Negate(a).exponent == a.exponent;
  }

  lemma MirroredIncrement(mantissa: nat, mode: RoundingMode, guard: bool, sticky: bool, sign: bool)
    ensures One(IncreaseMantissa(mantissa, Mirror(mode), guard, sticky, !sign)) ==
              One(IncreaseMantissa(mantissa, mode, guard, sticky, sign))
              + (if mode == NearUp && guard && !sticky then (if sign then 1 else -1) else 0)
  {
  }

  lemma MirroredExceptions(sign: bool, mode: RoundingMode)
    ensures var (o, o') := (Overflow(sign, mode), Overflow(!sign, Mirror(mode)));
            o'.z == Negate(o.z) && o'.flags == o.flags
    ensures var (u, u') := (Underflow(sign, mode), Underflow(!sign, Mirror(mode)));
            u'.z == Negate(u.z) && u'.flags == u.flags
  {
  }

  ghost predicate Mirrored(a: Float, b: Float, mode: RoundingMode) {
    var out, out' := Multiply(a, b, mode), Multiply(Negate(a), b, Mirror(mode));
    out'.z == Negate(out.z) && out'.flags == out.flags
  }

  /** Negating an operand and mirroring the mode negates the result and keeps the flags, with exactly two
      exceptions: near_up on a halfway tie, and zero times infinity. */
  lemma NegationMirrors(a: Float, b: Float, mode: RoundingMode)
    ensures Mirrored(a, b, mode) <==>
              !(mode == NearUp && HalfwayTie(a, b)) && !ZeroTimesInf(a, b)
  {
    if !BothNormal(a, b) {
      SpecialMirrored(a, b, mode);
    } else {
      NormalMirrored(a, b, mode);
    }
  }

  lemma SpecialMirrored(a: Float, b: Float, mode: RoundingMode)
    requires !BothNormal(a, b)
    ensures Mirrored(a, b, mode) <==> !ZeroTimesInf(a, b)
  {
    SpecialOperands(a, b, mode);
    SpecialOperands(Negate(a), b, Mirror(mode));
  }

  lemma NormalMirrored(a: Float, b: Float, mode: RoundingMode)
    requires BothNormal(a, b)
    ensures Mirrored(a, b, mode) <==> !(mode == NearUp && HalfwayTie(a, b))
  {
    NegatedWires(a, b, mode);
    var c, c' := RoundedMagnitude(a, b, mode), RoundedMagnitude(Negate(a), b, Mirror(mode));
    if TrueExponent(a, b) < 1 || (c >= INFINITY && c' >= INFINITY) {
      ExceptionsMirrored(a, b, mode);
    } else {
      OutcomeMagnitude(a, b, mode);
      OutcomeMagnitude(Negate(a), b, Mirror(mode));
      SameFloat(Multiply(Negate(a), b, Mirror(mode)).z, Negate(Multiply(a, b, mode).z));
    }
  }

  lemma ExceptionsMirrored(a: Float, b: Float, mode: RoundingMode)
    requires BothNormal(a, b)
    requires TrueExponent(a, b) < 1
          || (RoundedMagnitude(a, b, mode) >= INFINITY && RoundedMagnitude(Negate(a), b, Mirror(mode)) >= INFINITY)
    ensures Mirrored(a, b, mode)
  {
    NegatedWires(a, b, mode);
    NormalOutcome(a, b, mode);
    NormalOutcome(Negate(a), b, Mirror(mode));
    ExponentOfMagnitude(a, b, mode);
    ExponentOfMagnitude(Negate(a), b, Mirror(mode));
    MirroredExceptions(ProductSign(a, b), mode);
  }

  lemma OutcomeMagnitude(a: Float, b: Float, mode: RoundingMode)
    requires BothNormal(a, b) && TrueExponent(a, b) >= 1 && RoundedMagnitude(a, b, mode) <= INFINITY
    ensures var out, c, n := Multiply(a, b, mode), RoundedMagnitude(a, b, mode), NormalizedProduct(a, b);
            && out.z.sign == ProductSign(a, b)
            && (c < INFINITY ==> Magnitude(out.z) == c && out.flags == NO_FLAGS.(inexact := n.guard || n.sticky))
            && (c == INFINITY && mode == NearUp ==> Magnitude(out.z) == c)
  {
    NormalOutcome(a, b, mode);
    PackedWord(a, b, mode);
    ExponentOfMagnitude(a, b, mode);
  }
}
