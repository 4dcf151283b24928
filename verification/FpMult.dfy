/** The single-precision multiplier, module by module, as combinational functions on bit fields.
    Every fixed-width wire is a number reduced to its width where it is assigned. */
module FpMult {
  import opened Bits

  datatype RoundingMode = IeeeNear | IeeeZero | IeeePinf | IeeeNinf | NearUp | AwayZero

  datatype Interp = Zero | Inf | Norm | MinNorm | MaxNorm

  datatype Flags = Flags(zero: bool, inf: bool, nan: bool, tiny: bool, huge: bool, inexact: bool)

  datatype Normalized = Normalized(guard: bool, sticky: bool, mantissa: nat, exponent: nat)

  datatype Rounded = Rounded(result: nat, inexact: bool)

  type Bits8 = x: int | 0 <= x < 0x100

  type Bits23 = x: int | 0 <= x < 0x80_0000

  /** A 32-bit bus holding a number: its bits 31, 30:23 and 22:0. */
  datatype Float = Float(sign: bool, exponent: Bits8, fraction: Bits23)

  datatype Output = Output(z: Float, flags: Flags)

  /** The 31 bits below the sign, as a number. */
  function Magnitude(f: Float): (c: nat)
    ensures c < 0x8000_0000
  {
    f.exponent * 0x80_0000 + f.fraction
  }

  /** A 10-bit wire read as signed. */
  function Signed10(x: nat): int
    requires x < 0x400
  {
    if x >= 0x200 then x - 0x400 else x
  }

  // ----- normalized_mult.sv -----

  function Normalize(p: nat, sumExp: nat): (n: Normalized)
    requires p < 0x1_0000_0000_0000 && sumExp < 0x400
    ensures n.mantissa < 0x80_0000 && n.exponent < 0x400
  {
    var carry := p / 0x8000_0000_0000 % 2;
    var exponent := (sumExp + carry) % 0x400;
    if carry == 1 then
      Normalized(p / 0x80_0000 % 2 == 1, p % 0x80_0000 != 0, p / 0x100_0000 % 0x80_0000, exponent)
    else
      Normalized(p / 0x40_0000 % 2 == 1, p % 0x40_0000 != 0, p / 0x80_0000 % 0x80_0000, exponent)
  }

  // ----- rounded_mult.sv -----

  /** The wire increase_mantissa. */
  predicate IncreaseMantissa(mantissa: nat, mode: RoundingMode, guard: bool, sticky: bool, sign: bool) {
    var inexact := guard || sticky;
    match mode
    case IeeeNear => guard && (sticky || (!sticky && mantissa % 2 == 1))
    case IeeeZero => false
    case IeeePinf => inexact && !sign
    case IeeeNinf => inexact && sign
    case NearUp => guard && (sticky || (!sticky && !sign))
    case AwayZero => inexact
  }

  function RoundMantissa(mantissa: nat, mode: RoundingMode, guard: bool, sticky: bool, sign: bool): Rounded
    requires mantissa < 0x100_0000
  {
    var increase := if IncreaseMantissa(mantissa, mode, guard, sticky, sign) then 1 else 0;
    Rounded((mantissa + increase) % 0x200_0000, guard || sticky)
  }

  // ----- exception_mult.sv -----

  function NumInterp(value: Float): Interp {
    if value.exponent == 0 then Zero
    else if value.exponent == 0xFF then Inf
    else Norm
  }

  /** The concatenation {sign, z_num(interp)}. */
  function ZNum(sign: bool, interp: Interp): Float {
    match interp
    case Zero => Float(sign, 0, 0)
    case Inf => Float(sign, 0xFF, 0)
    case MinNorm => Float(sign, 1, 0)
    case MaxNorm => Float(sign, 0xFE, 0x7F_FFFF)
    case Norm => Float(sign, 0, 0)
  }

  const NO_FLAGS := Flags(false, false, false, false, false, false)

  function Exception(a: Float, b: Float, zCalc: Float, overflow: bool, underflow: bool, inexact: bool,
                     mode: RoundingMode): Output
  {
    var sign := zCalc.sign;
    match (NumInterp(a), NumInterp(b))
    case (Zero, Zero) => Output(ZNum(sign, Zero), NO_FLAGS.(zero := true))
    case (Zero, Norm) => Output(ZNum(sign, Zero), NO_FLAGS.(zero := true))
    case (Zero, Inf) => Output(ZNum(false, Inf), NO_FLAGS.(nan := true, inf := true))
    case (Inf, Inf) => Output(ZNum(sign, Inf), NO_FLAGS.(inf := true))
    case (Inf, Norm) => Output(ZNum(sign, Inf), NO_FLAGS.(inf := true))
    case (Inf, Zero) => Output(ZNum(false, Inf), NO_FLAGS.(nan := true, inf := true))
    case (Norm, Zero) => Output(ZNum(sign, Zero), NO_FLAGS.(zero := true))
    case (Norm, Inf) => Output(ZNum(sign, Inf), NO_FLAGS.(inf := true))
    case _ =>
      if overflow then Overflow(sign, mode)
      else if underflow then Underflow(sign, mode)
      else Output(zCalc, NO_FLAGS.(inexact := inexact))
  }

  function Overflow(sign: bool, mode: RoundingMode): Output {
    var flags := NO_FLAGS.(huge := true, inexact := true);
    match mode
    case IeeeNear => Output(ZNum(sign, Inf), flags.(inf := true))
    case AwayZero => Output(ZNum(sign, Inf), flags.(inf := true))
    case NearUp => Output(ZNum(sign, Inf), flags.(inf := true))
    case IeeeZero => Output(ZNum(sign, MaxNorm), flags)
    case IeeePinf =>
      if !sign then Output(ZNum(false, Inf), flags.(inf := true))
      else Output(ZNum(true, MaxNorm), flags)
    case IeeeNinf =>
      if !sign then Output(ZNum(false, MaxNorm), flags)
      else Output(ZNum(true, Inf), flags.(inf := true))
  }

  function Underflow(sign: bool, mode: RoundingMode): Output {
    var flags := NO_FLAGS.(tiny := true, inexact := true);
    match mode
    case IeeeNear => Output(ZNum(sign, Zero), flags.(zero := true))
    case NearUp => Output(ZNum(sign, Zero), flags.(zero := true))
    case IeeeZero => Output(ZNum(sign, Zero), flags.(zero := true))
    case IeeePinf =>
      if !sign then Output(ZNum(false, MinNorm), flags)
      else Output(ZNum(true, Zero), flags.(zero := true))
    case IeeeNinf =>
      if !sign then Output(ZNum(false, Zero), flags.(zero := true))
      else Output(ZNum(true, MinNorm), flags)
    case AwayZero => Output(ZNum(sign, MinNorm), flags)
  }

  // ----- fp_mult.sv -----

  function ZSign(a: Float, b: Float): bool { a.sign != b.sign }

  /** The 10-bit wire exponent_sum. */
  function ExponentSum(a: Float, b: Float): nat { (a.exponent + b.exponent - 127) % 0x400 }

  /** The 48-bit wire mantissa_prod: both fractions with their leading one. */
  function MantissaProduct(a: Float, b: Float): (p: nat)
    ensures 0x4000_0000_0000 <= p < 0x1_0000_0000_0000
  {
    ProductBounds(0x80_0000 + a.fraction, 0x80_0000 + b.fraction, 0x80_0000, 0xFF_FFFF);
    (0x80_0000 + a.fraction) * (0x80_0000 + b.fraction)
  }

  function NormalizedProduct(a: Float, b: Float): Normalized {
    Normalize(MantissaProduct(a, b), ExponentSum(a, b))
  }

  function RoundedProduct(a: Float, b: Float, mode: RoundingMode): Rounded {
    var n := NormalizedProduct(a, b);
    RoundMantissa(0x80_0000 + n.mantissa, mode, n.guard, n.sticky, ZSign(a, b))
  }

  /** The 10-bit wire post_round_exponent. */
  function PostRoundExponent(normalizedExponent: nat, roundingResult: nat): (e: nat)
    requires normalizedExponent < 0x400
    ensures e < 0x400
  {
    if roundingResult / 0x100_0000 % 2 == 1 then (normalizedExponent + 1) % 0x400 else normalizedExponent
  }

  /** The 24-bit wire post_round_mantissa. */
  function PostRoundMantissa(roundingResult: nat): nat {
    if roundingResult / 0x100_0000 % 2 == 1 then roundingResult / 2 % 0x100_0000 else roundingResult % 0x100_0000
  }

  /** The concatenation {z_sign, post_round_exponent[7:0], post_round_mantissa[22:0]}. */
  function Pack(sign: bool, exponent: nat, mantissa: nat): Float {
    Float(sign, exponent % 0x100, mantissa % 0x80_0000)
  }

  function ExponentOf(a: Float, b: Float, mode: RoundingMode): (e: nat)
    ensures e < 0x400
  {
    PostRoundExponent(NormalizedProduct(a, b).exponent, RoundedProduct(a, b, mode).result)
  }

  function ZCalc(a: Float, b: Float, mode: RoundingMode): Float {
    Pack(ZSign(a, b), ExponentOf(a, b, mode), PostRoundMantissa(RoundedProduct(a, b, mode).result))
  }

  predicate UnderflowBit(a: Float, b: Float) {
    Signed10(NormalizedProduct(a, b).exponent) < 1
  }

  predicate OverflowBit(a: Float, b: Float, mode: RoundingMode) {
    Signed10(ExponentOf(a, b, mode)) > 254
  }

  function Multiply(a: Float, b: Float, mode: RoundingMode): Output {
    Exception(a, b, ZCalc(a, b, mode), OverflowBit(a, b, mode), UnderflowBit(a, b),
              RoundedProduct(a, b, mode).inexact, mode)
  }

  /** The 8-bit status output {0, 0, inexact, huge, tiny, nan, inf, zero}. */
  function StatusByte(f: Flags): nat {
    (if f.inexact then 32 else 0) + (if f.huge then 16 else 0) + (if f.tiny then 8 else 0)
    + (if f.nan then 4 else 0) + (if f.inf then 2 else 0) + (if f.zero then 1 else 0)
  }
}
