/** Which instructions of the subset can only compute zero, whatever the registers and the memory hold. */
module ZeroResults {
  import opened Bits
  import opened RegFile
  import opened Testbench
  import opened Refinement
  import opened Rv32i
  import opened Rv32iEncoding

  predicate Writes(ins: Rv32) { ins.RegImm? || ins.RegReg? || ins.Lw? }

  /** What can be seen in the listing: x0 or zero where it decides the result, or a number against itself. */
  predicate AlwaysZero(ins: Rv32) {
    match ins
    case RegImm(op, _, rs1, imm) =>
      || (op == Band && imm == 0)
      || (rs1 == 0 && (imm == 0 || op == Band || Shifts(op) || (op == Slt && imm < 0)))
    case RegReg(op, _, rs1, rs2) =>
      || (op == Band && (rs1 == 0 || rs2 == 0))
      || (Shifts(op) && rs1 == 0)
      || ((op == Sub || op == Slt || op == Bxor) && rs1 == rs2)
      || (rs1 == 0 && rs2 == 0)
    case _ => false
  }

  // ----- words by their places -----

  lemma NoBits(z: Word)
    requires z == 0
    ensures forall i :: i >= 0 ==> !Bit(z, i)
  {
    forall i | i >= 0
      ensures !Bit(z, i)
    {
      QuotientUnique(z, Pow2(i), 0, 0);
    }
  }

  lemma PlacesWith(bits: seq<bool>, w: Word)
    requires |bits| == 32 && forall i :: 0 <= i < 32 ==> bits[i] == Bit(w, i)
    ensures Places(bits) == w
  {
    Pow2Literals();
    WordWith(bits, w);
  }

  lemma AndZero(w: Word, z: Word)
    requires z == 0
    ensures AndWord(z, w) == 0 && AndWord(w, z) == 0
  {
    var left := seq(32, (i: nat) => Bit(z, i) && Bit(w, i));
    var right := seq(32, (i: nat) => Bit(w, i) && Bit(z, i));
    NoBits(z);
    PlacesWith(left, z);
    PlacesWith(right, z);
  }

  lemma OrZero(w: Word, z: Word)
    requires z == 0
    ensures OrWord(z, w) == w && OrWord(w, z) == w
  {
    var left := seq(32, (i: nat) => Bit(z, i) || Bit(w, i));
    var right := seq(32, (i: nat) => Bit(w, i) || Bit(z, i));
    NoBits(z);
    PlacesWith(left, w);
    PlacesWith(right, w);
  }

  lemma XorZero(w: Word, z: Word)
    requires z == 0
    ensures XorWord(z, w) == w && XorWord(w, z) == w
  {
    var left := seq(32, (i: nat) => Bit(z, i) != Bit(w, i));
    var right := seq(32, (i: nat) => Bit(w, i) != Bit(z, i));
    NoBits(z);
    PlacesWith(left, w);
    PlacesWith(right, w);
  }

  lemma WithItself(w: Word)
    ensures AndWord(w, w) == w && OrWord(w, w) == w && XorWord(w, w) == 0
  {
    var both := seq(32, (i: nat) => Bit(w, i) && Bit(w, i));
    var either := seq(32, (i: nat) => Bit(w, i) || Bit(w, i));
    var differ := seq(32, (i: nat) => Bit(w, i) != Bit(w, i));
    NoBits(0);
    PlacesWith(both, w);
    PlacesWith(either, w);
    PlacesWith(differ, 0);
  }

  lemma SignedZero(w: Word)
    ensures Wrap(Signed(w)) == w && -0x8000_0000 <= Signed(w) < 0x8000_0000
    ensures Signed(w) == 0 <==> w == 0
  {
  }

  // ----- zero where the listing says so -----

  predicate Bitwise(op: Operation) { op == Band || op == Bor || op == Bxor }

  /** The three bitwise operations. */
  function OnBits(op: Operation, x: Word, w: Word): Word {
    if op == Band then AndWord(x, w) else if op == Bor then OrWord(x, w) else XorWord(x, w)
  }

  lemma ComputesOnBits(op: Operation, x: Word, y: int)
    requires Bitwise(op)
    ensures Compute(op, x, y) == OnBits(op, x, Wrap(y))
  {
  }

  lemma ZeroOnBits(op: Operation, w: Word)
    ensures OnBits(op, w, 0) == OnBits(op, 0, w) == if op == Band then 0 else w
  {
    AndZero(w, 0);
    OrZero(w, 0);
    XorZero(w, 0);
  }

  lemma SameOnBits(op: Operation, w: Word)
    requires Bitwise(op)
    ensures OnBits(op, w, w) == if op == Bxor then 0 else w
  {
    WithItself(w);
  }

  lemma ZeroOperand(op: Operation, x: Word, y: int)
    requires x == 0 && (Shifts(op) || op == Band || y == 0 || (op == Slt && y < 0))
    ensures Compute(op, x, y) == 0
  {
    if Bitwise(op) {
      ComputesOnBits(op, x, y);
      ZeroOnBits(op, Wrap(y));
    } else if Shifts(op) {
      ZeroShifted(x, Pow2(y % 32));
    }
  }

  lemma ZeroShifted(x: Word, d: nat)
    requires x == 0 && d > 0
    ensures Wrap(x * d) == 0 && Wrap(x / d) == 0 && Wrap(Signed(x) / d) == 0
  {
    QuotientUnique(0, d, 0, 0);
  }

  lemma AgainstItself(op: Operation, x: Word)
    requires op == Sub || op == Slt || op == Bxor
    ensures Compute(op, x, Signed(x)) == 0
  {
    SignedZero(x);
    if op == Bxor {
      ComputesOnBits(op, x, Signed(x));
      SameOnBits(op, x);
    }
  }

  lemma AndNothing(x: Word)
    ensures Compute(Band, x, 0) == 0
  {
    ComputesOnBits(Band, x, 0);
    ZeroOnBits(Band, x);
  }

  lemma ZeroWritten(s: Arch, ins: Rv32)
    requires s.regs[0] == 0 && Encodable(ins) && AlwaysZero(ins)
    ensures Written(s, ins) == 0
  {
    match ins
    case RegImm(op, _, rs1, imm) =>
      if op == Band && imm == 0 {
        AndNothing(ReadX(s.regs, rs1));
      } else {
        ZeroOperand(op, ReadX(s.regs, rs1), imm);
      }
    case RegReg(op, _, rs1, rs2) =>
      SignedZero(ReadX(s.regs, rs2));
      if op == Band && rs2 == 0 {
        AndNothing(ReadX(s.regs, rs1));
      } else if (op == Sub || op == Slt || op == Bxor) && rs1 == rs2 {
        AgainstItself(op, ReadX(s.regs, rs1));
      } else {
        ZeroOperand(op, ReadX(s.regs, rs1), Signed(ReadX(s.regs, rs2)));
      }
  }

  // ----- another value where it does not -----

  /** A left operand that gives another result than zero with this right one. */
  function Left(op: Operation, y: int): Word {
    match op
    case Add => Wrap(1 - y)
    case Sub => Wrap(1 + y)
    case Slt => 0x8000_0000
    case Bxor => if y == 0 then 1 else 0
    case Bor => if y == 0 then 1 else 0
    case Band => Wrap(y)
    case Sll => 1
    case Srl => 0xFFFF_FFFF
    case Sra => 0xFFFF_FFFF
  }

  lemma PowerFits(s: int)
    requires 0 <= s < 32
    ensures 1 <= Pow2(s) <= 0x8000_0000
  {
    Pow2Literals();
    Pow2Monotone(s, 31);
  }

  lemma NonzeroShifts(d: nat)
    requires 1 <= d <= 0x8000_0000
    ensures Wrap(1 * d) != 0 && Wrap(0xFFFF_FFFF / d) != 0 && Wrap(-1 / d) != 0
  {
    QuotientUnique(-1, d, -1, d - 1);
    QuotientBelow(0xFFFF_FFFF, d, 0x1_0000_0000);
    assert 0xFFFF_FFFF / d >= 1;
  }

  lemma NonzeroLeft(op: Operation, y: int)
    requires -0x4000_0000 < y < 0x4000_0000 && (op == Band ==> y != 0)
    ensures Compute(op, Left(op, y), y) != 0
  {
    if Bitwise(op) {
      ComputesOnBits(op, Left(op, y), y);
      NonzeroOnBits(op, Left(op, y), Wrap(y));
    } else if Shifts(op) {
      NonzeroShifted(op, Left(op, y), y);
    } else {
      NonzeroSum(op, Left(op, y), y);
    }
  }

  lemma NonzeroOnBits(op: Operation, x: Word, w: Word)
    requires Bitwise(op) && if op == Band then x == w != 0 else (x != 0 && w == 0) || (x == 0 && w != 0)
    ensures OnBits(op, x, w) != 0
  {
    if op == Band {
      SameOnBits(op, w);
    } else if w == 0 {
      ZeroOnBits(op, x);
    } else {
      ZeroOnBits(op, w);
    }
  }

  lemma NonzeroShifted(op: Operation, x: Word, y: int)
    requires Shifts(op) && x == if op == Sll then 1 else 0xFFFF_FFFF
    ensures Compute(op, x, y) != 0
  {
    PowerFits(y % 32);
    NonzeroShifts(Pow2(y % 32));
  }

  lemma NonzeroSum(op: Operation, x: Word, y: int)
    requires !Bitwise(op) && !Shifts(op) && -0x4000_0000 < y < 0x4000_0000 && x == Left(op, y)
    ensures Compute(op, x, y) != 0
  {
  }

  /** From zero. */
  lemma NonzeroFromZero(op: Operation, x: Word, y: int)
    requires -0x8000_0000 <= y < 0x8000_0000 && x == 0
    requires !(Shifts(op) || op == Band || y == 0 || (op == Slt && y < 0))
    ensures Compute(op, x, y) != 0
  {
    if Bitwise(op) {
      ComputesOnBits(op, x, y);
      NonzeroOnBits(op, x, Wrap(y));
    } else {
      NonzeroSumFromZero(op, x, y);
    }
  }

  lemma NonzeroSumFromZero(op: Operation, x: Word, y: int)
    requires -0x8000_0000 <= y < 0x8000_0000 && x == 0
    requires !Shifts(op) && !Bitwise(op) && y != 0 && (op == Slt ==> y > 0)
    ensures Compute(op, x, y) != 0
  {
  }

  /** A number against itself, of which the low five bits are zero. */
  lemma NonzeroWithItself(op: Operation, x: Word)
    requires op != Sub && op != Slt && op != Bxor && x == 0xFFFF_FFE0
    ensures Compute(op, x, Signed(x)) != 0
  {
    SignedZero(x);
    if Bitwise(op) {
      ComputesOnBits(op, x, Signed(x));
      SameOnBits(op, x);
    } else if Shifts(op) {
      Unshifted(op, x, Signed(x));
    }
  }

  lemma Unshifted(op: Operation, x: Word, y: int)
    requires Shifts(op) && y % 32 == 0
    ensures Compute(op, x, y) == x
  {
    SignedZero(x);
    assert x * 1 == x && x / 1 == x && Signed(x) / 1 == Signed(x);
  }

  const ZEROS: Registers := seq(32, _ => 0)

  function With(rs1: Bits5, x: Word, rs2: Bits5, y: Word): (s: Arch)
    requires rs1 == 0 ==> x == 0
    requires rs2 == 0 ==> y == 0
    requires rs1 == rs2 ==> x == y
    ensures s.pc == 0 && s.regs[0] == 0 && ReadX(s.regs, rs1) == x && ReadX(s.regs, rs2) == y
  {
    Arch(0, ZEROS[rs1 := x][rs2 := y], seq(512, _ => 1))
  }

  lemma NonzeroImmediate(op: Operation, rd: Bits5, rs1: Bits5, imm: int) returns (s: Arch)
    requires Encodable(RegImm(op, rd, rs1, imm)) && !AlwaysZero(RegImm(op, rd, rs1, imm))
    ensures s.pc == 0 && s.regs[0] == 0 && Written(s, RegImm(op, rd, rs1, imm)) != 0
  {
    if rs1 == 0 {
      s := With(0, 0, 0, 0);
      NonzeroFromZero(op, 0, imm);
    } else {
      s := With(rs1, Left(op, imm), 0, 0);
      NonzeroLeft(op, imm);
    }
  }

  lemma NonzeroRegisters(op: Operation, rd: Bits5, rs1: Bits5, rs2: Bits5) returns (s: Arch)
    requires !AlwaysZero(RegReg(op, rd, rs1, rs2))
    ensures s.pc == 0 && s.regs[0] == 0 && Written(s, RegReg(op, rd, rs1, rs2)) != 0
  {
    if rs1 == 0 {
      s := With(0, 0, rs2, 1);
      NonzeroFromZero(op, 0, 1);
    } else if rs1 == rs2 {
      s := With(rs1, 0xFFFF_FFE0, rs2, 0xFFFF_FFE0);
      NonzeroWithItself(op, 0xFFFF_FFE0);
    } else if op == Band {
      s := With(rs1, 1, rs2, 1);
      NonzeroLeft(Band, 1);
    } else {
      s := With(rs1, Left(op, 0), rs2, 0);
      NonzeroLeft(op, 0);
    }
  }

  lemma NonzeroLoad(ins: Rv32) returns (s: Arch)
    requires ins.Lw?
    ensures s.pc == 0 && s.regs[0] == 0 && Written(s, ins) != 0
  {
    s := With(0, 0, 0, 0);
    var a := Address(Wrap(ReadX(s.regs, ins.rs1) + ins.imm));
    assert s.ram[a] == 1;
    LoadNonzero(s.ram, a);
  }

  lemma LoadNonzero(ram: Ram, a: nat)
    requires a < 512 && ram[a] == 1
    ensures LoadWord(ram, a) != 0
  {
    BigEndian(ram, a, 0);
  }

  lemma NonzeroWritten(ins: Rv32) returns (s: Arch)
    requires Encodable(ins) && Writes(ins) && !AlwaysZero(ins)
    ensures s.pc == 0 && s.regs[0] == 0 && Written(s, ins) != 0
  {
    match ins
    case RegImm(op, rd, rs1, imm) => s := NonzeroImmediate(op, rd, rs1, imm);
    case RegReg(op, rd, rs1, rs2) => s := NonzeroRegisters(op, rd, rs1, rs2);
    case Lw(_, _, _) => s := NonzeroLoad(ins);
  }
}
