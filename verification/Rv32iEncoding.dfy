/** The instruction formats of the subset: decoding accepts exactly what encoding produces. */
module Rv32iEncoding {
  import opened RegFile
  import opened Multicycle
  import opened Rv32i

  function Funct3(op: Operation): Bits3 {
    match op
    case Add => 0
    case Sub => 0
    case Sll => 1
    case Slt => 2
    case Bxor => 4
    case Srl => 5
    case Sra => 5
    case Bor => 6
    case Band => 7
  }

  function Funct7(op: Operation): Bits7 { if op == Sub || op == Sra then 32 else 0 }

  predicate Shifts(op: Operation) { op == Sll || op == Srl || op == Sra }

  /** Its immediate fits: 12 signed bits, 5 bits for a shift amount, or 13 signed bits of which the last is zero. */
  predicate Encodable(ins: Rv32) {
    match ins
    case RegImm(op, _, _, imm) => op != Sub && if Shifts(op) then 0 <= imm < 32 else -2048 <= imm < 2048
    case RegReg(_, _, _, _) => true
    case Lw(_, _, imm) => -2048 <= imm < 2048
    case Sw(_, _, imm) => -2048 <= imm < 2048
    case Beq(_, _, imm) => -4096 <= imm < 4096 && imm % 2 == 0
  }

  /** The R, I, S and B formats. */
  function Encode(ins: Rv32): Instr
    requires Encodable(ins)
  {
    match ins
    case RegReg(op, rd, rs1, rs2) => Instr(Funct7(op), rs2, rs1, Funct3(op), rd, 0x33)
    case RegImm(op, rd, rs1, imm) =>
      if Shifts(op) then Instr(Funct7(op), imm, rs1, Funct3(op), rd, 0x13)
      else Instr(High(imm), imm % 32, rs1, Funct3(op), rd, 0x13)
    case Lw(rd, rs1, imm) => Instr(High(imm), imm % 32, rs1, 2, rd, 0x03)
    case Sw(rs1, rs2, imm) => Instr(High(imm), rs2, rs1, 2, imm % 32, 0x23)
    case Beq(rs1, rs2, imm) => Instr(BranchHigh(imm), rs2, rs1, 0, BranchLow(imm), 0x63)
  }

  /** Bits 11 to 5 of an immediate. */
  function High(imm: int): Bits7 { imm / 32 % 128 }

  /** Bits 12 and 10 to 5. */
  function BranchHigh(imm: int): Bits7 { imm / 4096 % 2 * 64 + imm / 32 % 64 }

  /** Bits 4 to 1 and 11. */
  function BranchLow(imm: int): Bits5 { imm / 2 % 16 * 2 + imm / 2048 % 2 }

  lemma FieldsOfI(i: Instr, imm: int)
    ensures -2048 <= ImmI(i) < 2048
    ensures -2048 <= imm < 2048 ==> (ImmI(i) == imm <==> i.funct7 == High(imm) && i.rs2 == imm % 32)
  {
  }

  lemma FieldsOfS(i: Instr, imm: int)
    ensures -2048 <= ImmS(i) < 2048
    ensures -2048 <= imm < 2048 ==> (ImmS(i) == imm <==> i.funct7 == High(imm) && i.rd == imm % 32)
  {
  }

  lemma FieldsOfB(i: Instr, imm: int)
    ensures -4096 <= ImmB(i) < 4096 && ImmB(i) % 2 == 0
    ensures -4096 <= imm < 4096 && imm % 2 == 0 ==>
              (ImmB(i) == imm <==> i.funct7 == BranchHigh(imm) && i.rd == BranchLow(imm))
  {
    BranchIsSplit(i);
    if -4096 <= imm < 4096 && imm % 2 == 0 && i.funct7 == BranchHigh(imm) && i.rd == BranchLow(imm) {
      BranchIsJoined(i, imm);
    }
  }

  lemma BranchIsSplit(i: Instr)
    ensures -4096 <= ImmB(i) < 4096 && ImmB(i) % 2 == 0
    ensures i.funct7 == BranchHigh(ImmB(i)) && i.rd == BranchLow(ImmB(i))
  {
    BranchFields(i.funct7, i.rd);
    BranchDigits(ImmB(i), i.funct7 / 64, i.rd % 2, i.funct7 % 64, i.rd / 2);
  }

  lemma BranchIsJoined(i: Instr, imm: int)
    requires -4096 <= imm < 4096 && imm % 2 == 0 && i.funct7 == BranchHigh(imm) && i.rd == BranchLow(imm)
    ensures ImmB(i) == imm
  {
    BranchSum(imm);
    assert i.funct7 / 64 == imm / 4096 % 2 && i.funct7 % 64 == imm / 32 % 64;
    assert i.rd / 2 == imm / 2 % 16 && i.rd % 2 == imm / 2048 % 2;
  }

  lemma BranchFields(f: Bits7, rd: Bits5)
    ensures f == f / 64 * 64 + f % 64 && 0 <= f / 64 < 2 && rd == rd / 2 * 2 + rd % 2
  {
  }

  lemma BranchDigits(imm: int, b12: int, b11: int, b10to5: int, b4to1: int)
    requires 0 <= b12 < 2 && 0 <= b11 < 2 && 0 <= b10to5 < 64 && 0 <= b4to1 < 16
    requires imm == b4to1 * 2 + b10to5 * 32 + b11 * 2048 - b12 * 4096
    ensures -4096 <= imm < 4096 && imm % 2 == 0
    ensures imm / 4096 % 2 == b12 && imm / 2048 % 2 == b11 && imm / 32 % 64 == b10to5 && imm / 2 % 16 == b4to1
  {
    assert imm / 4096 == -b12;
    assert imm / 2048 == b11 - 2 * b12;
    assert imm / 32 == b10to5 + 64 * (b11 - 2 * b12);
    assert imm / 2 == b4to1 + 16 * (b10to5 + 64 * (b11 - 2 * b12));
  }

  lemma BranchSum(imm: int)
    requires -4096 <= imm < 4096 && imm % 2 == 0
    ensures imm == imm / 2 % 16 * 2 + imm / 32 % 64 * 32 + imm / 2048 % 2 * 2048 - imm / 4096 % 2 * 4096
  {
    assert imm / 32 == imm / 2 / 16 && imm / 2048 == imm / 32 / 64 && imm / 4096 == imm / 2048 / 2;
  }

  /** An instruction word decodes to an instruction if and only if it is its encoding. */
  lemma DecodeIff(i: Instr, ins: Rv32)
    ensures Decode(i) == Supported(ins) <==> Encodable(ins) && i == Encode(ins)
  {
    match ins
    case RegImm(op, _, _, imm) => FieldsOfI(i, imm);
    case RegReg(_, _, _, _) =>
    case Lw(_, _, imm) => FieldsOfI(i, imm);
    case Sw(_, _, imm) => FieldsOfS(i, imm);
    case Beq(_, _, imm) => FieldsOfB(i, imm);
  }
}
