/** What rounding means, with no guard, sticky or carry in sight.

    A magnitude is the 31 bits of a word below its sign.  The format keeps zero, the normal numbers
    and infinity; its magnitudes, read as numbers, come in the order of the values they stand for.
    Values are integers: Units counts multiples of 2^-149, so the exact product of two operands
    counts multiples of 2^-298, and Scaled puts a single magnitude on that same scale. */
module FloatGrid {
  import opened Bits
  import opened FpMult

  const MIN_NORM: nat := 0x0080_0000
  const MAX_NORM: nat := 0x7F7F_FFFF
  const INFINITY: nat := 0x7F80_0000

  predicate OnGrid(c: nat) { c == 0 || MIN_NORM <= c <= INFINITY }

  predicate FiniteOnGrid(c: nat) { OnGrid(c) && c != INFINITY }

  // ----- kinds of operands, by their exponent field -----

  /** Zero, or a denormal, which counts as zero. */
  predicate IsZero(a: Float) { a.exponent == 0 }

  /** Infinity, or a NaN, which counts as infinity. */
  predicate IsInfinite(a: Float) { a.exponent == 0xFF }

  predicate IsNormal(a: Float) { 1 <= a.exponent <= 0xFE }

  /** Unlike signs make a negative product. */
  function ProductSign(a: Float, b: Float): bool { a.sign != b.sign }

  /** The value of a magnitude in multiples of 2^-149; infinity reads as 2^128. */
  function Units(c: nat): nat {
    if c < MIN_NORM then 0 else (0x80_0000 + c % 0x80_0000) * Pow2(c / 0x80_0000 - 1)
  }

  function Scaled(c: nat): nat { Units(c) * Pow2(149) }

  function ExactProduct(a: Float, b: Float): nat { Units(Magnitude(a)) * Units(Magnitude(b)) }

  // ----- the six rounding modes -----

  /** c is the largest finite magnitude not above x. */
  ghost predicate RoundsDown(x: nat, c: nat) {
    FiniteOnGrid(c) && Scaled(c) <= x && forall d: nat :: FiniteOnGrid(d) && Scaled(d) <= x ==> d <= c
  }

  /** Infinity is above everything; a finite magnitude is compared by value. */
  predicate AtLeast(c: nat, x: nat) { OnGrid(c) && (c == INFINITY || x <= Scaled(c)) }

  /** c is the smallest magnitude, infinity included, not below x. */
  ghost predicate RoundsUp(x: nat, c: nat) {
    AtLeast(c, x) && forall d: nat :: AtLeast(d, x) ==> c <= d
  }

  function Distance(x: nat, y: nat): nat { if x <= y then y - x else x - y }

  /** No magnitude is nearer to x; infinity competes as 2^128. */
  ghost predicate Nearest(x: nat, c: nat) {
    OnGrid(c) && forall d: nat :: OnGrid(d) ==> Distance(x, Scaled(c)) <= Distance(x, Scaled(d))
  }

  /** Nearest, and even if it shares that place with another magnitude. */
  ghost predicate RoundsToEven(x: nat, c: nat) {
    Nearest(x, c) && forall d: nat :: Nearest(x, d) && d != c ==> c % 2 == 0
  }

  /** Nearest, and the one closer to plus infinity if it shares that place with another magnitude. */
  ghost predicate RoundsToUpper(x: nat, sign: bool, c: nat) {
    Nearest(x, c) && forall d: nat :: Nearest(x, d) && d != c ==> if sign then c < d else d < c
  }

  /** The multiplier's rounding of a positive magnitude x under a sign.  The directed modes round to
      the whole grid; the nearest modes flush everything below the smallest normal number to zero. */
  ghost predicate RoundsTo(mode: RoundingMode, sign: bool, x: nat, c: nat) {
    match mode
    case IeeeZero => RoundsDown(x, c)
    case AwayZero => RoundsUp(x, c)
    case IeeePinf => if sign then RoundsDown(x, c) else RoundsUp(x, c)
    case IeeeNinf => if sign then RoundsUp(x, c) else RoundsDown(x, c)
    case IeeeNear => if x < Scaled(MIN_NORM) then c == 0 else RoundsToEven(x, c)
    case NearUp => if x < Scaled(MIN_NORM) then c == 0 else RoundsToUpper(x, sign, c)
  }

  // ----- the grid is ordered as its magnitudes are -----

  lemma UnitsStep(c: nat)
    requires MIN_NORM <= c < INFINITY
    ensures Units(c + 1) == Units(c) + Pow2(c / 0x80_0000 - 1)
    ensures Units(c) < Units(c + 1)
  {
    var e := c / 0x80_0000;
    if (c + 1) % 0x80_0000 == 0 {
      assert (c + 1) / 0x80_0000 == e + 1;
      assert c % 0x80_0000 == 0x7F_FFFF;
      assert Pow2(e) == 2 * Pow2(e - 1);
    } else {
      assert (c + 1) / 0x80_0000 == e;
      assert (c + 1) % 0x80_0000 == c % 0x80_0000 + 1;
      var m := 0x80_0000 + c % 0x80_0000;
      assert (m + 1) * Pow2(e - 1) == m * Pow2(e - 1) + Pow2(e - 1);
    }
  }

  lemma {:induction false} UnitsOrder(c: nat, d: nat)
    requires OnGrid(c) && OnGrid(d) && c < d
    ensures Units(c) < Units(d)
    decreases d
  {
    if d == MIN_NORM {
      assert Units(d) == 0x80_0000 * Pow2(0);
    } else if c == d - 1 {
      UnitsStep(c);
    } else {
      UnitsOrder(c, d - 1);
      UnitsStep(d - 1);
    }
  }

  lemma GridOrder(c: nat, d: nat)
    requires OnGrid(c) && OnGrid(d)
    ensures c < d <==> Scaled(c) < Scaled(d)
    ensures c == d <==> Scaled(c) == Scaled(d)
  {
    if c < d {
      UnitsOrder(c, d);
    } else if d < c {
      UnitsOrder(d, c);
    }
    ScaleOrder(Units(c), Units(d), Pow2(149));
  }

  lemma GridOrderAll()
    ensures forall c: nat, d: nat :: OnGrid(c) && OnGrid(d) && c < d ==> Scaled(c) < Scaled(d)
  {
    forall c: nat, d: nat | OnGrid(c) && OnGrid(d) && c < d
      ensures Scaled(c) < Scaled(d)
    {
      GridOrder(c, d);
    }
  }

  /** Exponent e and significand m, leading one included, spell a magnitude worth m * 2^(e + 148). */
  lemma MagnitudeValue(e: nat, m: nat)
    requires 1 <= e <= 255 && 0x80_0000 <= m < 0x100_0000
    ensures Scaled((e - 1) * 0x80_0000 + m) == m * Pow2(e + 148)
  {
    UnitsValue(e, m);
    Pow2Sum(e - 1, 149);
    Associative(m, Pow2(e - 1), Pow2(149));
  }

  lemma UnitsValue(e: nat, m: nat)
    requires 1 <= e <= 255 && 0x80_0000 <= m < 0x100_0000
    ensures Units((e - 1) * 0x80_0000 + m) == m * Pow2(e - 1)
  {
    QuotientUnique((e - 1) * 0x80_0000 + m, 0x80_0000, e, m - 0x80_0000);
  }

  lemma Associative(x: int, y: int, z: int)
    ensures (x * y) * z == x * (y * z)
  {
  }

  lemma ScaledStep(e: nat, m: nat)
    requires 1 <= e <= 254 && 0x80_0000 <= m < 0x100_0000
    ensures Scaled((e - 1) * 0x80_0000 + m + 1) == m * Pow2(e + 148) + Pow2(e + 148)
  {
    MulStep(m, Pow2(e + 148));
    if m + 1 < 0x100_0000 {
      MagnitudeValue(e, m + 1);
    } else {
      NextBinade(e, m);
    }
  }

  lemma NextBinade(e: nat, m: nat)
    requires 1 <= e <= 254 && m + 1 == 0x100_0000
    ensures Scaled((e - 1) * 0x80_0000 + m + 1) == (m + 1) * Pow2(e + 148)
  {
    MagnitudeValue(e + 1, 0x80_0000);
    assert (e - 1) * 0x80_0000 + m + 1 == e * 0x80_0000 + 0x80_0000;
    assert Pow2(e + 1 + 148) == 2 * Pow2(e + 148);
  }

  // ----- rounding a value caught between two neighbours -----

  predicate Between(t: nat, x: nat) {
    MIN_NORM <= t < INFINITY && Scaled(t) <= x < Scaled(t + 1)
  }

  lemma BetweenDirected(t: nat, x: nat)
    requires Between(t, x)
    ensures RoundsDown(x, t)
    ensures RoundsUp(x, if x == Scaled(t) then t else t + 1)
  {
    GridOrderAll();
  }

  lemma BetweenNearest(t: nat, x: nat)
    requires Between(t, x)
    ensures 2 * x <= Scaled(t) + Scaled(t + 1) <==> Nearest(x, t)
    ensures 2 * x >= Scaled(t) + Scaled(t + 1) <==> Nearest(x, t + 1)
    ensures forall d: nat :: Nearest(x, d) ==> d == t || d == t + 1
  {
    GridOrderAll();
    forall d: nat | OnGrid(d)
      ensures Distance(x, Scaled(d)) >= Distance(x, Scaled(t)) || Distance(x, Scaled(d)) >= Distance(x, Scaled(t + 1))
      ensures d < t ==> Distance(x, Scaled(d)) > Distance(x, Scaled(t))
      ensures d > t + 1 ==> Distance(x, Scaled(d)) > Distance(x, Scaled(t + 1))
    {
    }
    assert OnGrid(t) && OnGrid(t + 1);
  }

  // ----- the specification is single-valued and monotone -----

  lemma DirectedMonotone(x: nat, y: nat, c: nat, d: nat)
    requires x <= y
    ensures RoundsDown(x, c) && RoundsDown(y, d) ==> c <= d
    ensures RoundsUp(x, c) && RoundsUp(y, d) ==> c <= d
  {
    assert AtLeast(d, y) ==> AtLeast(d, x);
  }

  lemma NearestMonotone(x: nat, y: nat, c: nat, d: nat)
    requires Scaled(MIN_NORM) <= x <= y && Nearest(x, c) && Nearest(y, d) && d < c
    ensures x == y && c == d + 1
  {
    GridOrderAll();
    assert OnGrid(MIN_NORM);
    assert OnGrid(d + 1);
  }

  lemma RoundsToMonotone(mode: RoundingMode, sign: bool, x: nat, y: nat, c: nat, d: nat)
    requires x <= y && RoundsTo(mode, sign, x, c) && RoundsTo(mode, sign, y, d)
    ensures c <= d
  {
    if d < c && (mode == IeeeNear || mode == NearUp) {
      NearestMonotone(x, y, c, d);
    } else {
      DirectedMonotone(x, y, c, d);
    }
  }

  lemma RoundsToUnique(mode: RoundingMode, sign: bool, x: nat, c: nat, d: nat)
    requires RoundsTo(mode, sign, x, c) && RoundsTo(mode, sign, x, d)
    ensures c == d
  {
    RoundsToMonotone(mode, sign, x, x, c, d);
    RoundsToMonotone(mode, sign, x, x, d, c);
  }
}
