/** The supported subset of RV32I, as the RISC-V Unprivileged ISA manual (version 20191213, sections 2.2
    to 2.6) defines it: sign-extended immediates, arithmetic on the numbers that registers spell, a
    hard-wired x0, and an exception when a taken branch has a misaligned target. */
module Rv32i {
  import opened Bits
  import opened Iteration
  import opened RegFile
  import opened Multicycle
  import opened Testbench
  import opened Refinement

  datatype Operation = Add | Sub | Slt | Bxor | Bor | Band | Sll | Srl | Sra

  datatype Rv32 =
    | RegImm(op: Operation, rd: Bits5, rs1: Bits5, imm: int)
    | RegReg(op: Operation, rd: Bits5, rs1: Bits5, rs2: Bits5)
    | Lw(rd: Bits5, rs1: Bits5, imm: int)
    | Sw(rs1: Bits5, rs2: Bits5, imm: int)
    | Beq(rs1: Bits5, rs2: Bits5, imm: int)

  datatype Decoded = Supported(ins: Rv32) | Unsupported

  // ----- section 2.3: immediates, always sign-extended from instruction bit 31 -----

  function SignBit(i: Instr): int { i.funct7 / 64 }

  function ImmI(i: Instr): int { i.funct7 * 32 + i.rs2 - SignBit(i) * 4096 }

  function ImmS(i: Instr): int { i.funct7 * 32 + i.rd - SignBit(i) * 4096 }

  function ImmB(i: Instr): int {
    i.rd / 2 * 2 + i.funct7 % 64 * 32 + i.rd % 2 * 2048 - SignBit(i) * 4096
  }

  // ----- section 2.4: decoding -----

  function Decode(i: Instr): Decoded {
    if i.opcode == 0x13 then
      match i.funct3
      case 0 => Supported(RegImm(Add, i.rd, i.rs1, ImmI(i)))
      case 2 => Supported(RegImm(Slt, i.rd, i.rs1, ImmI(i)))
      case 4 => Supported(RegImm(Bxor, i.rd, i.rs1, ImmI(i)))
      case 6 => Supported(RegImm(Bor, i.rd, i.rs1, ImmI(i)))
      case 7 => Supported(RegImm(Band, i.rd, i.rs1, ImmI(i)))
      case 1 => if i.funct7 == 0 then Supported(RegImm(Sll, i.rd, i.rs1, i.rs2)) else Unsupported
      case 5 =>
        if i.funct7 == 0 then Supported(RegImm(Srl, i.rd, i.rs1, i.rs2))
        else if i.funct7 == 32 then Supported(RegImm(Sra, i.rd, i.rs1, i.rs2))
        else Unsupported
      case _ => Unsupported
    else if i.opcode == 0x33 then
      match (i.funct3, i.funct7)
      case (0, 0) => Supported(RegReg(Add, i.rd, i.rs1, i.rs2))
      case (0, 32) => Supported(RegReg(Sub, i.rd, i.rs1, i.rs2))
      case (1, 0) => Supported(RegReg(Sll, i.rd, i.rs1, i.rs2))
      case (2, 0) => Supported(RegReg(Slt, i.rd, i.rs1, i.rs2))
      case (4, 0) => Supported(RegReg(Bxor, i.rd, i.rs1, i.rs2))
      case (5, 0) => Supported(RegReg(Srl, i.rd, i.rs1, i.rs2))
      case (5, 32) => Supported(RegReg(Sra, i.rd, i.rs1, i.rs2))
      case (6, 0) => Supported(RegReg(Bor, i.rd, i.rs1, i.rs2))
      case (7, 0) => Supported(RegReg(Band, i.rd, i.rs1, i.rs2))
      case _ => Unsupported
    else if i.opcode == 0x03 && i.funct3 == 2 then Supported(Lw(i.rd, i.rs1, ImmI(i)))
    else if i.opcode == 0x23 && i.funct3 == 2 then Supported(Sw(i.rs1, i.rs2, ImmS(i)))
    else if i.opcode == 0x63 && i.funct3 == 0 then Supported(Beq(i.rs1, i.rs2, ImmB(i)))
    else Unsupported
  }

  // ----- section 2.4: computation -----

  function Places(bits: seq<bool>): Word
    requires |bits| == 32
  {
    Pow2Literals();
    WordOf(bits)
  }

  function AndWord(x: Word, y: Word): Word { Places(seq(32, (i: nat) => Bit(x, i) && Bit(y, i))) }

  function OrWord(x: Word, y: Word): Word { Places(seq(32, (i: nat) => Bit(x, i) || Bit(y, i))) }

  function XorWord(x: Word, y: Word): Word { Places(seq(32, (i: nat) => Bit(x, i) != Bit(y, i))) }

  /** The operations on a register value and a second number; shifts use its low five bits. */
  function Compute(op: Operation, x: Word, y: int): Word {
    match op
    case Add => Wrap(Signed(x) + y)
    case Sub => Wrap(Signed(x) - y)
    case Slt => if Signed(x) < y then 1 else 0
    case Bxor => XorWord(x, Wrap(y))
    case Bor => OrWord(x, Wrap(y))
    case Band => AndWord(x, Wrap(y))
    case Sll => Wrap(x * Pow2(y % 32))
    case Srl => Wrap(x / Pow2(y % 32))
    case Sra => Wrap(Signed(x) / Pow2(y % 32))
  }

  // ----- execution -----

  function ReadX(regs: Registers, r: Bits5): Word { if r == 0 then 0 else regs[r] }

  function WriteX(regs: Registers, r: Bits5, value: Word): Registers { if r == 0 then regs else regs[r := value] }

  datatype Step = Retired(next: Arch) | MisalignedTarget | OutsideSubset

  /** The value a retiring instruction writes to its destination register. */
  function Written(s: Arch, ins: Rv32): Word
    requires ins.RegImm? || ins.RegReg? || ins.Lw?
  {
    match ins
    case RegImm(op, _, rs1, imm) => Compute(op, ReadX(s.regs, rs1), imm)
    case RegReg(op, _, rs1, rs2) => Compute(op, ReadX(s.regs, rs1), Signed(ReadX(s.regs, rs2)))
    case Lw(_, rs1, imm) => LoadWord(s.ram, Address(Wrap(ReadX(s.regs, rs1) + imm)))
  }

  function Execute(s: Arch, ins: Rv32): Step {
    var next := Wrap(s.pc + 4);
    match ins
    case Sw(rs1, rs2, imm) =>
      Retired(Arch(next, s.regs, StoreWord(s.ram, Address(Wrap(ReadX(s.regs, rs1) + imm)), ReadX(s.regs, rs2))))
    case Beq(rs1, rs2, imm) =>
      if ReadX(s.regs, rs1) != ReadX(s.regs, rs2) then Retired(s.(pc := next))
      else if (s.pc + imm) % 4 != 0 then MisalignedTarget
      else Retired(s.(pc := Wrap(s.pc + imm)))
    case _ => Retired(Arch(next, WriteX(s.regs, ins.rd, Written(s, ins)), s.ram))
  }

  function IsaStep(s: Arch, i: Instr): Step {
    match Decode(i)
    case Supported(ins) => Execute(s, ins)
    case Unsupported => OutsideSubset
  }

  /** The ISA machine stops at its first exception. */
  function IsaMachine(rom: Rom): Step -> Step {
    (step: Step) => if step.Retired? then IsaStep(step.next, Fetched(step.next, rom)) else step
  }

  function IsaRun(s: Arch, rom: Rom, n: nat): Step { Iterate(IsaMachine(rom), Retired(s), n) }
}
