/** The 32-bit ALU, and what each of its operations means on the numbers the operands spell. */
module Alu {
  import opened Bits

  const ALUOP_AND: nat := 0x0
  const ALUOP_OR: nat := 0x1
  const ALUOP_XOR: nat := 0xD
  const ALUOP_ADD: nat := 0x2
  const ALUOP_SUB: nat := 0x6
  const ALUOP_LT: nat := 0x7
  const ALUOP_LRS: nat := 0x8
  const ALUOP_LLS: nat := 0x9
  const ALUOP_ARS: nat := 0xA

  /** The operation codes whose result is not left undefined. */
  predicate Defined(aluOp: nat) {
    aluOp in {ALUOP_AND, ALUOP_OR, ALUOP_XOR, ALUOP_ADD, ALUOP_SUB, ALUOP_LT, ALUOP_LRS, ALUOP_LLS, ALUOP_ARS}
  }

  predicate AndBit(a: bool, b: bool) { a && b }

  predicate OrBit(a: bool, b: bool) { a || b }

  predicate XorBit(a: bool, b: bool) { a != b }

  function And(x: Word, y: Word): Word { Pow2Literals(); Bitwise(AndBit, 32, x, y) }

  function Or(x: Word, y: Word): Word { Pow2Literals(); Bitwise(OrBit, 32, x, y) }

  function Xor(x: Word, y: Word): Word { Pow2Literals(); Bitwise(XorBit, 32, x, y) }

  /** Vacated places on the left fill with zeros. */
  function ShiftRightLogical(x: Word, s: nat): Word { QuotientBound(x, Pow2(s)); x / Pow2(s) }

  function ShiftLeft(x: Word, s: nat): Word { x * Pow2(s) % 0x1_0000_0000 }

  /** Vacated places on the left fill with copies of the sign: the top s bits of the result. */
  function ShiftRightArithmetic(x: Word, s: nat): Word
    requires s < 32
  {
    ShiftedRoom(x, s);
    x / Pow2(s) + if x >= 0x8000_0000 then 0x1_0000_0000 - Pow2(32 - s) else 0
  }

  function Result(op1: Word, op2: Word, aluOp: nat): Word
    requires Defined(aluOp)
  {
    if aluOp == ALUOP_AND then And(op1, op2)
    else if aluOp == ALUOP_OR then Or(op1, op2)
    else if aluOp == ALUOP_XOR then Xor(op1, op2)
    else if aluOp == ALUOP_ADD then (op1 + op2) % 0x1_0000_0000
    else if aluOp == ALUOP_SUB then (op1 - op2) % 0x1_0000_0000
    else if aluOp == ALUOP_LT then (if LessSigned(op1, op2) then 1 else 0)
    else if aluOp == ALUOP_LRS then ShiftRightLogical(op1, op2 % 32)
    else if aluOp == ALUOP_LLS then ShiftLeft(op1, op2 % 32)
    else ShiftRightArithmetic(op1, op2 % 32)
  }

  /** The signed comparison in hardware: on equal signs the bits decide, otherwise the signs do. */
  predicate LessSigned(x: Word, y: Word) {
    if x < 0x8000_0000 <==> y < 0x8000_0000 then x < y else x >= 0x8000_0000
  }

  predicate ZeroFlag(result: Word) { result == 0 }

  // ----- bounds -----

  lemma QuotientBound(x: Word, d: nat)
    requires d > 0
    ensures 0 <= x / d <= x
  {
    MulMonotone(1, d, x / d);
  }

  lemma ComplementaryPowers(s: nat)
    requires s < 32
    ensures Pow2(32 - s) * Pow2(s) == 0x1_0000_0000
    ensures Pow2(32 - s) <= 0x1_0000_0000
  {
    Pow2Literals();
    Pow2Sum(32 - s, s);
    Pow2Monotone(32 - s, 32);
  }

  /** A word shifted right by s leaves its top s places free. */
  lemma ShiftedRoom(x: Word, s: nat)
    requires s < 32
    ensures 0 <= x / Pow2(s) < Pow2(32 - s) <= 0x1_0000_0000
  {
    ComplementaryPowers(s);
    QuotientBelow(x, Pow2(s), Pow2(32 - s));
    QuotientBound(x, Pow2(s));
  }

  // ----- what the operations mean -----

  /** And, or and exclusive or combine the operands place by place. */
  lemma BitsOfResult(x: Word, y: Word, i: nat)
    requires i < 32
    ensures Bit(And(x, y), i) <==> Bit(x, i) && Bit(y, i)
    ensures Bit(Or(x, y), i) <==> Bit(x, i) || Bit(y, i)
    ensures Bit(Xor(x, y), i) <==> Bit(x, i) != Bit(y, i)
  {
    BitwiseBits(AndBit, 32, x, y, i);
    BitwiseBits(OrBit, 32, x, y, i);
    BitwiseBits(XorBit, 32, x, y, i);
  }

  /** The arithmetic right shift divides the signed number by a power of two, rounding down. */
  lemma ArithmeticShiftDivides(x: Word, s: nat)
    requires s < 32
    ensures ShiftRightArithmetic(x, s) == Wrap(Signed(x) / Pow2(s))
  {
    ShiftedRoom(x, s);
    ComplementaryPowers(s);
    var q := x / Pow2(s);
    if x >= 0x8000_0000 {
      QuotientShift(x, Pow2(s), Pow2(32 - s));
      WrapNegative(q, Pow2(32 - s));
    } else {
      WrapNegative(q, 0);
    }
  }

  lemma WrapNegative(q: int, h: int)
    requires 0 <= h <= 0x1_0000_0000 && 0 <= q < if h == 0 then 0x1_0000_0000 else h
    ensures Wrap(q - h) == q + if h == 0 then 0 else 0x1_0000_0000 - h
  {
  }

  lemma SignedArithmetic(x: Word, y: Word)
    ensures (x + y) % 0x1_0000_0000 == Wrap(Signed(x) + Signed(y))
    ensures (x - y) % 0x1_0000_0000 == Wrap(Signed(x) - Signed(y))
    ensures LessSigned(x, y) <==> Signed(x) < Signed(y)
  {
  }

  /** The zero flag of a subtraction compares the operands. */
  lemma SubtractionZero(x: Word, y: Word)
    ensures ZeroFlag((x - y) % 0x1_0000_0000) <==> x == y
  {
  }
}
