/** Where the processor agrees with RV32I, and exactly where it does not. */
module Rv32iAgreement {
  import opened Bits
  import opened Alu
  import opened Iteration
  import opened RegFile
  import opened Multicycle
  import opened Testbench
  import opened Refinement
  import opened Rv32i
  import opened Rv32iEncoding
  import opened ZeroResults

  // ----- immediates -----

  lemma SplitFunct7(i: Instr)
    ensures i.funct7 == SignBit(i) * 64 + i.funct7 % 64 && 0 <= SignBit(i) <= 1
    ensures SignBit(i) == 1 <==> i.funct7 >= 64
    ensures i.rd == i.rd / 2 * 2 + i.rd % 2
  {
  }

  /** I-type immediates are extended correctly.  S and B immediates lose their sign: they are too large by
      2^12 and 2^13 exactly when instruction bit 31 is set. */
  lemma ImmediatesAsCoded(i: Instr)
    ensures ImmediateI(i) == Wrap(ImmI(i))
    ensures ImmediateS(i) == ImmS(i) + SignBit(i) * 0x1000
    ensures ImmediateB(i) == ImmB(i) + SignBit(i) * 0x2000
    ensures -0x800 <= ImmI(i) < 0x800 && -0x800 <= ImmS(i) < 0x800 && -0x1000 <= ImmB(i) < 0x1000
    ensures 0 <= SignBit(i) <= 1
  {
    SplitFunct7(i);
    if i.funct7 >= 64 {
      assert SignBit(i) == 1;
    } else {
      assert SignBit(i) == 0;
    }
  }

  // ----- the ALU -----

  /** The ALU code that carries out an operation. */
  function CodeOf(op: Operation): (code: nat)
    ensures Defined(code)
  {
    match op
    case Add => 0x2
    case Sub => 0x6
    case Slt => 0x7
    case Bxor => 0xD
    case Bor => 0x1
    case Band => 0x0
    case Sll => 0x9
    case Srl => 0x8
    case Sra => 0xA
  }

  /** The ALU's place-by-place loop gives the word the manual describes by its bits. */
  lemma AluAnd(x: Word, y: Word)
    ensures And(x, y) == AndWord(x, y)
  {
    var bits := seq(32, (i: nat) => Bit(x, i) && Bit(y, i));
    forall i | 0 <= i < 32
      ensures bits[i] == Bit(And(x, y), i)
    {
      BitsOfResult(x, y, i);
    }
    Pow2Literals();
    WordWith(bits, And(x, y));
  }

  lemma AluOr(x: Word, y: Word)
    ensures Or(x, y) == OrWord(x, y)
  {
    var bits := seq(32, (i: nat) => Bit(x, i) || Bit(y, i));
    forall i | 0 <= i < 32
      ensures bits[i] == Bit(Or(x, y), i)
    {
      BitsOfResult(x, y, i);
    }
    Pow2Literals();
    WordWith(bits, Or(x, y));
  }

  lemma AluXor(x: Word, y: Word)
    ensures Xor(x, y) == XorWord(x, y)
  {
    var bits := seq(32, (i: nat) => Bit(x, i) != Bit(y, i));
    forall i | 0 <= i < 32
      ensures bits[i] == Bit(Xor(x, y), i)
    {
      BitsOfResult(x, y, i);
    }
    Pow2Literals();
    WordWith(bits, Xor(x, y));
  }

  /** The ALU computes what the ISA means on a second operand that spells y. */
  lemma AluComputes(op: Operation, x: Word, w: Word, y: int)
    requires !Shifts(op) && w == Wrap(y) && -0x8000_0000 <= y < 0x8000_0000
    ensures Result(x, w, CodeOf(op)) == Compute(op, x, y)
  {
    match op
    case Band => AluAnd(x, w);
    case Bor => AluOr(x, w);
    case Bxor => AluXor(x, w);
    case _ =>
      SignedOfWrap(y);
      SignedArithmetic(x, w);
  }

  lemma SignedOfWrap(y: int)
    requires -0x8000_0000 <= y < 0x8000_0000
    ensures Signed(Wrap(y)) == y
  {
  }

  /** Of a shift amount only the low five bits matter. */
  lemma AluShifts(op: Operation, x: Word, w: Word, y: int)
    requires Shifts(op) && w % 32 == y % 32
    ensures Result(x, w, CodeOf(op)) == Compute(op, x, y)
  {
    match op
    case Sra => ArithmeticShiftDivides(x, w % 32);
    case Srl => SmallWrap(x, Pow2(w % 32));
    case Sll =>
  }

  lemma SmallWrap(x: Word, d: nat)
    requires d > 0
    ensures Wrap(x / d) == x / d
  {
    QuotientBound(x, d);
  }

  /** On the supported subset, control decoding chooses the operation and operands of the manual. */
  lemma ControlMatchesDecode(i: Instr)
    requires Decode(i).Supported?
    ensures match Decode(i).ins
            case RegImm(op, rd, rs1, imm) =>
              AluCtrl(i) == CodeOf(op) && AluSrc(i) && !MemToReg(i) && RegWrite(WB, i) && rd == i.rd && rs1 == i.rs1
              && (if Shifts(op) then imm == i.rs2 else imm == ImmI(i))
            case RegReg(op, rd, rs1, rs2) =>
              AluCtrl(i) == CodeOf(op) && !AluSrc(i) && !MemToReg(i) && RegWrite(WB, i)
              && rd == i.rd && rs1 == i.rs1 && rs2 == i.rs2
            case Lw(rd, rs1, imm) =>
              AluCtrl(i) == CodeOf(Add) && AluSrc(i) && MemToReg(i) && RegWrite(WB, i)
              && rd == i.rd && rs1 == i.rs1 && imm == ImmI(i)
            case Sw(rs1, rs2, imm) =>
              AluCtrl(i) == CodeOf(Add) && AluSrc(i) && !RegWrite(WB, i) && MemWrite(MEM, i)
              && rs1 == i.rs1 && rs2 == i.rs2 && imm == ImmS(i)
            case Beq(rs1, rs2, imm) =>
              AluCtrl(i) == CodeOf(Sub) && !AluSrc(i) && !RegWrite(WB, i)
              && rs1 == i.rs1 && rs2 == i.rs2 && imm == ImmB(i)
    ensures MemWrite(MEM, i) <==> Decode(i).ins.Sw?
    ensures i.opcode == OP_BRANCH <==> Decode(i).ins.Beq?
  {
  }

  // ----- one instruction -----

  predicate Taken(s: Arch, ins: Rv32) { ins.Beq? && ReadX(s.regs, ins.rs1) == ReadX(s.regs, ins.rs2) }

  lemma SignedWrap(w: Word)
    ensures Wrap(Signed(w)) == w && -0x8000_0000 <= Signed(w) < 0x8000_0000
  {
  }

  lemma ImmediateComputes(s: Arch, i: Instr)
    requires s.regs[0] == 0 && Decode(i).Supported? && Decode(i).ins.RegImm?
    ensures CodedResult(s, i) == Written(s, Decode(i).ins)
  {
    ControlMatchesDecode(i);
    var RegImm(op, _, rs1, imm) := Decode(i).ins;
    if Shifts(op) {
      ShiftAmount(i);
      AluShifts(op, s.regs[rs1], ImmediateI(i), imm);
    } else {
      ImmediatesAsCoded(i);
      AluComputes(op, s.regs[rs1], ImmediateI(i), imm);
    }
  }

  lemma ShiftAmount(i: Instr)
    ensures ImmediateI(i) % 32 == i.rs2
  {
  }

  lemma RegistersCompute(s: Arch, i: Instr)
    requires s.regs[0] == 0 && Decode(i).Supported? && Decode(i).ins.RegReg?
    ensures CodedResult(s, i) == Written(s, Decode(i).ins)
  {
    ControlMatchesDecode(i);
    SignedWrap(s.regs[i.rs2]);
    var RegReg(op, _, rs1, rs2) := Decode(i).ins;
    if Shifts(op) {
      SignedLowBits(s.regs[rs2]);
      AluShifts(op, s.regs[rs1], s.regs[rs2], Signed(s.regs[rs2]));
    } else {
      AluComputes(op, s.regs[rs1], s.regs[rs2], Signed(s.regs[rs2]));
    }
  }

  lemma SignedLowBits(w: Word)
    ensures Signed(w) % 32 == w % 32
  {
  }

  lemma WrapSum(x: int, y: int)
    ensures Wrap(x + Wrap(y)) == Wrap(x + y)
  {
    var q := y / 0x1_0000_0000;
    RemainderShift(x + Wrap(y), 0x1_0000_0000, q);
    assert x + Wrap(y) + q * 0x1_0000_0000 == x + y;
  }

  /** The memory sees the same address before and after wrapping around. */
  lemma AddressOfWrap(x: int)
    ensures Address(Wrap(x)) == x % MEMORY_SIZE
  {
    var q := x / 0x1_0000_0000;
    RemainderShift(Wrap(x), MEMORY_SIZE, q * 0x80_0000);
    assert Wrap(x) + q * 0x80_0000 * MEMORY_SIZE == x;
  }

  /** The sum of a register and an I-type immediate, as the ALU and as the manual forms it. */
  lemma AddressSum(s: Arch, i: Instr)
    requires AluCtrl(i) == CodeOf(Add) && AluSrc(i) && Immediate(i) == ImmediateI(i)
    ensures CodedResult(s, i) == Wrap(s.regs[i.rs1] + ImmI(i))
  {
    ImmediatesAsCoded(i);
    WrapSum(s.regs[i.rs1], ImmI(i));
  }

  lemma LoadAddress(s: Arch, i: Instr, ins: Rv32)
    requires s.regs[0] == 0 && Decode(i) == Supported(ins) && ins.Lw?
    ensures CodedResult(s, i) == Wrap(ReadX(s.regs, ins.rs1) + ins.imm)
  {
    ControlMatchesDecode(i);
    AddressSum(s, i);
  }

  lemma LoadsWritten(s: Arch, i: Instr, ins: Rv32)
    requires s.regs[0] == 0 && Decode(i) == Supported(ins) && ins.Lw?
    ensures LoadWord(s.ram, Address(CodedResult(s, i))) == Written(s, ins)
  {
    LoadAddress(s, i, ins);
    LoadedFrom(s, ins, CodedResult(s, i));
  }

  lemma LoadedFrom(s: Arch, ins: Rv32, address: Word)
    requires ins.Lw? && address == Wrap(ReadX(s.regs, ins.rs1) + ins.imm)
    ensures LoadWord(s.ram, Address(address)) == Written(s, ins)
  {
  }

  /** The address on the 32-bit bus of a store is right exactly when the offset is not negative; with a
      negative offset it is 2^12 too high, which the nine address bits of the data memory do not show. */
  lemma StoreAddress(s: Arch, i: Instr)
    requires s.regs[0] == 0 && Decode(i).Supported? && Decode(i).ins.Sw?
    ensures var right := Wrap(s.regs[i.rs1] + ImmS(i));
            && (CodedResult(s, i) == right <==> ImmS(i) >= 0)
            && Address(CodedResult(s, i)) == Address(right)
  {
    ControlMatchesDecode(i);
    StoreSum(s, i);
  }

  lemma StoreSum(s: Arch, i: Instr)
    requires AluCtrl(i) == CodeOf(Add) && AluSrc(i) && Immediate(i) == ImmediateS(i)
    ensures var right := Wrap(s.regs[i.rs1] + ImmS(i));
            && (CodedResult(s, i) == right <==> ImmS(i) >= 0)
            && Address(CodedResult(s, i)) == Address(right)
  {
    ImmediatesAsCoded(i);
    SignOfStore(i);
    OffByPage(s.regs[i.rs1] + ImmS(i), SignBit(i));
  }

  lemma SignOfStore(i: Instr)
    ensures ImmS(i) >= 0 <==> SignBit(i) == 0
  {
    SplitFunct7(i);
  }

  lemma OffByPage(x: int, bit: int)
    requires 0 <= bit <= 1 && -0x1000 <= x < 0x1_0000_1000
    ensures Wrap(x + bit * 0x1000) == Wrap(x) <==> bit == 0
    ensures Address(Wrap(x + bit * 0x1000)) == Address(Wrap(x))
  {
    AddressOfWrap(x);
    AddressOfWrap(x + bit * 0x1000);
    RemainderShift(x, MEMORY_SIZE, bit * 8);
    assert x + bit * 0x1000 == x + bit * 8 * MEMORY_SIZE;
  }

  /** The exact agreement of one supported instruction with RV32I, in a state whose x0 reads zero. */
  predicate Agreeing(s: Arch, ins: Rv32, i: Instr) {
    && (Writes(ins) ==> ins.rd != 0 || Written(s, ins) == 0)
    && (Taken(s, ins) ==> SignBit(i) == 0 && (s.pc + ins.imm) % 4 == 0)
  }

  lemma StepAgreesIff(s: Arch, i: Instr)
    requires s.regs[0] == 0 && Decode(i).Supported?
    ensures IsaStep(s, i) == Retired(CodedStep(s, i)) <==> Agreeing(s, Decode(i).ins, i)
  {
    if Decode(i).ins.Sw? {
      StoreAgrees(s, i);
    } else if Decode(i).ins.Beq? {
      BranchAgreesIff(s, i, Decode(i).ins);
    } else {
      WritingAgreesIff(s, i);
    }
  }

  lemma StoreAgrees(s: Arch, i: Instr)
    requires s.regs[0] == 0 && Decode(i).Supported? && Decode(i).ins.Sw?
    ensures IsaStep(s, i) == Retired(CodedStep(s, i)) && Agreeing(s, Decode(i).ins, i)
  {
    ControlMatchesDecode(i);
    StoreAddress(s, i);
  }

  /** The value a writing instruction puts on the write-back bus. */
  function WrittenBack(s: Arch, i: Instr): Word {
    WriteBackData(i, CodedResult(s, i), LoadWord(s.ram, Address(CodedResult(s, i))))
  }

  lemma CodedWrites(s: Arch, i: Instr)
    requires Decode(i).Supported? && Writes(Decode(i).ins)
    ensures CodedStep(s, i) == Arch(Wrap(s.pc + 4), s.regs[i.rd := WrittenBack(s, i)], s.ram)
    ensures Decode(i).ins.rd == i.rd && (MemToReg(i) <==> Decode(i).ins.Lw?)
  {
    ControlMatchesDecode(i);
  }

  lemma IsaWrites(s: Arch, ins: Rv32)
    requires Writes(ins)
    ensures Execute(s, ins) == Retired(Arch(Wrap(s.pc + 4), WriteX(s.regs, ins.rd, Written(s, ins)), s.ram))
  {
  }

  lemma WritesBackWritten(s: Arch, i: Instr, ins: Rv32)
    requires s.regs[0] == 0 && Decode(i) == Supported(ins) && Writes(ins)
    ensures WrittenBack(s, i) == Written(s, ins)
  {
    CodedWrites(s, i);
    match ins
    case Lw(_, _, _) => LoadsWritten(s, i, ins);
    case RegReg(_, _, _, _) => RegistersCompute(s, i);
    case RegImm(_, _, _, _) => ImmediateComputes(s, i);
  }

  lemma WritingAgreesIff(s: Arch, i: Instr)
    requires s.regs[0] == 0 && Decode(i).Supported? && Writes(Decode(i).ins)
    ensures IsaStep(s, i) == Retired(CodedStep(s, i)) <==> Agreeing(s, Decode(i).ins, i)
  {
    var ins := Decode(i).ins;
    CodedWrites(s, i);
    IsaWrites(s, ins);
    WritesBackWritten(s, i, ins);
    WriteAgreesIff(s.regs, i.rd, Written(s, ins));
  }

  lemma WriteAgreesIff(regs: Registers, rd: Bits5, value: Word)
    requires regs[0] == 0
    ensures WriteX(regs, rd, value) == regs[rd := value] <==> rd != 0 || value == 0
  {
    assert regs[0 := value][0] == value;
    assert regs[0 := 0] == regs;
  }

  lemma BranchAgreesIff(s: Arch, i: Instr, ins: Rv32)
    requires s.regs[0] == 0 && Decode(i) == Supported(ins) && ins.Beq?
    ensures IsaStep(s, i) == Retired(CodedStep(s, i)) <==> Agreeing(s, ins, i)
  {
    BranchControl(i, ins);
    BranchCoded(s, i);
    BranchImmediate(i);
    BranchesCompare(s, i, ins, ImmediateB(i), IsaStep(s, i), CodedStep(s, i));
  }

  lemma BranchImmediate(i: Instr)
    ensures ImmediateB(i) == ImmB(i) + SignBit(i) * 0x2000
    ensures -0x1000 <= ImmB(i) < 0x1000 && 0 <= SignBit(i) <= 1
  {
    ImmediatesAsCoded(i);
  }

  lemma BranchControl(i: Instr, ins: Rv32)
    requires Decode(i) == Supported(ins) && ins.Beq?
    ensures AluCtrl(i) == ALUOP_SUB && !AluSrc(i) && !RegWrite(WB, i) && !MemWrite(MEM, i)
    ensures Immediate(i) == ImmediateB(i) && i.opcode == OP_BRANCH
    ensures ins == Beq(i.rs1, i.rs2, ImmB(i))
  {
    ControlMatchesDecode(i);
  }

  lemma BranchCoded(s: Arch, i: Instr)
    requires AluCtrl(i) == ALUOP_SUB && !AluSrc(i) && !RegWrite(WB, i) && !MemWrite(MEM, i)
    requires Immediate(i) == ImmediateB(i) && i.opcode == OP_BRANCH
    ensures CodedStep(s, i) == s.(pc := Wrap(s.pc + if s.regs[i.rs1] == s.regs[i.rs2] then ImmediateB(i) else 4))
  {
    BranchResult(s, i);
  }

  lemma BranchResult(s: Arch, i: Instr)
    requires AluCtrl(i) == ALUOP_SUB && !AluSrc(i)
    ensures ZeroFlag(CodedResult(s, i)) <==> s.regs[i.rs1] == s.regs[i.rs2]
  {
    SubtractionZero(s.regs[i.rs1], s.regs[i.rs2]);
  }

  /** The manual's branch, and one with an immediate that is too large by 2^13 if its sign bit is set. */
  lemma BranchesCompare(s: Arch, i: Instr, ins: Rv32, coded: int, isa: Step, next: Arch)
    requires ins.Beq? && -0x1000 <= ins.imm < 0x1000 && 0 <= SignBit(i) <= 1 && coded == ins.imm + SignBit(i) * 0x2000
    requires s.regs[0] == 0 && isa == Execute(s, ins)
    requires next == s.(pc := Wrap(s.pc + if s.regs[ins.rs1] == s.regs[ins.rs2] then coded else 4))
    ensures isa == Retired(next) <==> Agreeing(s, ins, i)
  {
    BranchTarget(s.pc, ins.imm, SignBit(i));
  }

  lemma BranchTarget(pc: Word, imm: int, bit: int)
    requires -0x1000 <= imm < 0x1000 && 0 <= bit <= 1
    ensures Wrap(pc + (imm + bit * 0x2000)) == Wrap(pc + imm) <==> bit == 0
  {
  }

  /** Witness of the lost sign: beq x0, x0, -4 at 0x00400004 jumps to 0x00402000 instead of 0x00400000. */
  lemma BackwardBranchJumpsForward(s: Arch, i: Instr)
    requires s.pc == 0x0040_0004 && s.regs[0] == 0 && i == Instr(127, 0, 0, 0, 29, OP_BRANCH)
    ensures Decode(i) == Supported(Beq(0, 0, -4))
    ensures IsaStep(s, i) == Retired(s.(pc := 0x0040_0000))
    ensures CodedStep(s, i).pc == 0x0040_2000
  {
    SubtractionZero(s.regs[0], s.regs[0]);
  }

  /** Witness of the writable x0: addi x0, x0, 5 changes it, where the manual's machine only moves on. */
  lemma ZeroRegisterWritten(s: Arch, i: Instr)
    requires s.regs[0] == 0 && i == Instr(0, 5, 0, 0, 0, OP_IMM)
    ensures Decode(i) == Supported(RegImm(Add, 0, 0, 5))
    ensures IsaStep(s, i) == Retired(s.(pc := Wrap(s.pc + 4)))
    ensures CodedStep(s, i).regs[0] == 5
  {
    ImmediateComputes(s, i);
  }

  // ----- outside the subset -----

  /** The circuit has no exception for encodings it does not know: it ignores fields it does not decode, and what is
      left of the two arithmetic opcodes it carries out as a bitwise and. */
  function ActsAs(i: Instr): Instr {
    if i.opcode == 0x03 || i.opcode == 0x23 then i.(funct3 := 2)
    else if i.opcode == 0x63 then i.(funct3 := 0)
    else if i.opcode == 0x13 then (if i.funct3 == 1 then i.(funct7 := 0) else i.(funct3 := 7))
    else i.(funct3 := 7, funct7 := 0)
  }

  /** An instruction outside the subset does what a supported one does, if it has one of the five opcodes, and
      otherwise nothing. */
  lemma UnsupportedActs(s: Arch, i: Instr)
    requires Decode(i) == Unsupported
    ensures if i.opcode in {0x03, 0x13, 0x23, 0x33, 0x63}
            then Decode(ActsAs(i)).Supported? && CodedStep(s, i) == CodedStep(s, ActsAs(i))
            else CodedStep(s, i) == s.(pc := Wrap(s.pc + 4))
  {
    if i.opcode in {0x03, 0x13, 0x23, 0x33, 0x63} {
      SameResult(s, i);
      SameStep(s, i, ActsAs(i));
    }
  }

  lemma SameControl(i: Instr)
    requires Decode(i) == Unsupported && i.opcode in {0x03, 0x13, 0x23, 0x33, 0x63}
    ensures var j := ActsAs(i);
            && Decode(j).Supported? && AluCtrl(i) == AluCtrl(j) && AluSrc(i) == AluSrc(j)
            && (AluSrc(i) && Immediate(i) != Immediate(j) ==>
                 AluCtrl(i) == ALUOP_LLS && Immediate(i) == ImmediateI(i) && Immediate(j) == ImmediateI(j))
  {
  }

  lemma SameShift(x: Word, y: Word, z: Word)
    requires y % 32 == z % 32
    ensures Result(x, y, ALUOP_LLS) == Result(x, z, ALUOP_LLS)
  {
  }

  lemma SameResult(s: Arch, i: Instr)
    requires Decode(i) == Unsupported && i.opcode in {0x03, 0x13, 0x23, 0x33, 0x63}
    ensures Decode(ActsAs(i)).Supported? && CodedResult(s, i) == CodedResult(s, ActsAs(i))
  {
    var j := ActsAs(i);
    SameControl(i);
    ShiftAmount(i);
    ShiftAmount(j);
    if AluSrc(i) && Immediate(i) != Immediate(j) {
      SameShift(s.regs[i.rs1], Immediate(i), Immediate(j));
    }
  }

  /** Beside its result, an instruction acts by its opcode, its destination and, in stores and branches, its offset. */
  lemma SameStep(s: Arch, i: Instr, j: Instr)
    requires i.opcode == j.opcode && i.rs2 == j.rs2 && i.rd == j.rd && CodedResult(s, i) == CodedResult(s, j)
    requires i.opcode == 0x63 ==> i.funct7 == j.funct7
    ensures CodedStep(s, i) == CodedStep(s, j)
  {
  }

  // ----- safe instructions -----

  /** What a program's author can check in the listing: only supported instructions, no write to x0 unless the result
      is always zero, no backward branch, branch targets on instruction boundaries. */
  predicate SafeInstr(i: Instr) {
    match Decode(i)
    case Unsupported => false
    case Supported(ins) =>
      (Writes(ins) ==> ins.rd != 0 || AlwaysZero(ins)) && (ins.Beq? ==> SignBit(i) == 0 && ins.imm % 4 == 0)
  }

  predicate Ready(s: Arch) { s.pc % 4 == 0 && s.regs[0] == 0 }

  lemma SafeInstrAgrees(s: Arch, i: Instr)
    requires Ready(s) && SafeInstr(i)
    ensures IsaStep(s, i) == Retired(CodedStep(s, i))
    ensures Ready(IsaStep(s, i).next)
  {
    SafeIsAgreeing(s, i);
    StepAgreesIff(s, i);
    StaysReady(s, Decode(i).ins);
  }

  lemma SafeIsAgreeing(s: Arch, i: Instr)
    requires Ready(s) && SafeInstr(i)
    ensures Decode(i).Supported? && Agreeing(s, Decode(i).ins, i)
  {
    SafeMeans(i);
    DecodeIff(i, Decode(i).ins);
    SafeAgrees(s, Decode(i).ins, i);
  }

  lemma SafeMeans(i: Instr)
    requires SafeInstr(i)
    ensures Decode(i).Supported?
    ensures var ins := Decode(i).ins;
            && (Writes(ins) ==> ins.rd != 0 || AlwaysZero(ins))
            && (ins.Beq? ==> SignBit(i) == 0 && ins.imm % 4 == 0)
  {
  }

  lemma SafeAgrees(s: Arch, ins: Rv32, i: Instr)
    requires Ready(s) && Encodable(ins) && (Writes(ins) ==> ins.rd != 0 || AlwaysZero(ins))
    requires ins.Beq? ==> SignBit(i) == 0 && ins.imm % 4 == 0
    ensures Agreeing(s, ins, i)
  {
    if Writes(ins) && ins.rd == 0 {
      ZeroWritten(s, ins);
    }
  }

  /** Safe instructions are exactly those that agree with the manual in every state with an aligned program counter and
      x0 zero. */
  lemma SafeInstrIff(i: Instr)
    ensures SafeInstr(i) <==> forall s :: Ready(s) ==> IsaStep(s, i) == Retired(CodedStep(s, i))
  {
    if SafeInstr(i) {
      forall s | Ready(s)
        ensures IsaStep(s, i) == Retired(CodedStep(s, i))
      {
        SafeInstrAgrees(s, i);
      }
    } else {
      var s := UnsafeDisagrees(i);
    }
  }

  lemma UnsafeDisagrees(i: Instr) returns (s: Arch)
    requires !SafeInstr(i)
    ensures Ready(s) && IsaStep(s, i) != Retired(CodedStep(s, i))
  {
    if Decode(i) == Unsupported {
      s := With(0, 0, 0, 0);
    } else {
      var ins := Decode(i).ins;
      DecodeIff(i, ins);
      if ins.Beq? {
        s := With(ins.rs1, 0, ins.rs2, 0);
      } else {
        s := NonzeroWritten(ins);
      }
      StepAgreesIff(s, i);
    }
  }

  /** Whatever retires, x0 stays zero in the manual's machine and the program counter aligned. */
  lemma StaysReady(s: Arch, ins: Rv32)
    requires Ready(s) && Execute(s, ins).Retired?
    ensures Ready(Execute(s, ins).next)
  {
    assert (s.pc + 4) % 4 == 0;
    AlignedWrap(s.pc + 4);
    if Taken(s, ins) {
      AlignedWrap(s.pc + ins.imm);
    }
  }

  lemma AlignedWrap(x: int)
    requires x % 4 == 0
    ensures Wrap(x) % 4 == 0
  {
    WrapAlignment(x);
  }

  lemma WrapAlignment(x: int)
    ensures Wrap(x) % 4 == x % 4
  {
    var q := x / 0x1_0000_0000;
    RemainderShift(Wrap(x), 4, q * 0x4000_0000);
    assert Wrap(x) + q * 0x4000_0000 * 4 == x;
  }

  // ----- runs -----

  /** The machine is not stopped, and the instruction it fetches next is safe. */
  predicate SafeNext(step: Step, rom: Rom) { step.Retired? && SafeInstr(Fetched(step.next, rom)) }

  /** Every instruction that the manual's machine fetches in its first n steps is safe. */
  ghost predicate SafeRun(s: Arch, rom: Rom, n: nat) { forall k :: 0 <= k < n ==> SafeNext(IsaRun(s, rom, k), rom) }

  lemma SafeStep(s: Arch, rom: Rom)
    requires Ready(s) && SafeInstr(Fetched(s, rom))
    ensures Ready(CodedMachine(rom)(s)) && Retired(CodedMachine(rom)(s)) == IsaMachine(rom)(Retired(s))
  {
    SafeInstrAgrees(s, Fetched(s, rom));
  }

  lemma SafeCodedRun(s: Arch, rom: Rom, n: nat, view: Arch -> Step, ready: Arch -> bool, safe: Step -> bool)
    requires forall x :: view(x) == Retired(x)
    requires forall x :: ready(x) <==> Ready(x)
    requires forall t :: safe(t) <==> SafeNext(t, rom)
    requires ready(s) && SafeRun(s, rom, n)
    ensures view(CodedRun(s, rom, n)) == Iterate(IsaMachine(rom), view(s), n)
  {
    forall k | 0 <= k < n
      ensures safe(Iterate(IsaMachine(rom), view(s), k))
    {
      assert SafeNext(IsaRun(s, rom, k), rom);
    }
    forall x: Arch | ready(x) && safe(view(x))
      ensures ready(CodedMachine(rom)(x)) && view(CodedMachine(rom)(x)) == IsaMachine(rom)(view(x))
    {
      SafeStep(x, rom);
    }
    RunsAgreeWhile(CodedMachine(rom), IsaMachine(rom), view, ready, safe, s, n);
  }

  lemma SafeRunAgrees(s: Arch, rom: Rom, n: nat)
    requires Ready(s) && SafeRun(s, rom, n)
    ensures IsaRun(s, rom, n) == Retired(CodedRun(s, rom, n))
  {
    SafeCodedRun(s, rom, n, x => Retired(x), x => Ready(x), t => SafeNext(t, rom));
  }

  /** End to end: as long as the instructions that are executed are safe, whatever else the memory holds, the clocked
      board does exactly what the manual says. */
  lemma SafeRunOnBoard(b: Board, rom: Rom, n: nat)
    requires b.core.state == IF && Ready(Visible(b)) && SafeRun(Visible(b), rom, n)
    ensures IsaRun(Visible(b), rom, n) == Retired(Visible(Edges(b, rom, n * 5)))
  {
    SafeRunAgrees(Visible(b), rom, n);
    ClockedRunRefines(b, rom, n);
  }

  predicate SafeProgram(rom: Rom) { forall a :: 0 <= a < MEMORY_SIZE && a % 4 == 0 ==> SafeInstr(rom[a]) }

  lemma AlignedAddress(pc: Word)
    ensures Address(pc) % 4 == pc % 4
  {
  }

  lemma SafeFetch(s: Arch, rom: Rom)
    requires SafeProgram(rom) && Ready(s)
    ensures SafeInstr(Fetched(s, rom))
  {
    AlignedAddress(s.pc);
  }

  lemma SafeProgramRun(s: Arch, rom: Rom, n: nat, view: Arch -> Step, ready: Arch -> bool)
    requires forall x :: view(x) == Retired(x)
    requires forall x :: ready(x) <==> Ready(x)
    requires SafeProgram(rom) && ready(s)
    ensures view(CodedRun(s, rom, n)) == Iterate(IsaMachine(rom), view(s), n) && ready(CodedRun(s, rom, n))
  {
    forall x: Arch | ready(x)
      ensures ready(CodedMachine(rom)(x)) && view(CodedMachine(rom)(x)) == IsaMachine(rom)(view(x))
    {
      SafeFetch(x, rom);
      SafeStep(x, rom);
    }
    RunsAgree(CodedMachine(rom), IsaMachine(rom), view, ready, s, n);
  }

  lemma SafeProgramAt(s: Arch, rom: Rom, k: nat)
    requires SafeProgram(rom) && Ready(s)
    ensures SafeNext(IsaRun(s, rom, k), rom)
  {
    SafeProgramRun(s, rom, k, x => Retired(x), x => Ready(x));
    SafeFetch(CodedRun(s, rom, k), rom);
  }

  /** In particular in a memory full of safe instructions, for any number of steps. */
  lemma SafeProgramRuns(b: Board, rom: Rom, n: nat)
    requires SafeProgram(rom) && b.core.state == IF && Ready(Visible(b))
    ensures IsaRun(Visible(b), rom, n) == Retired(Visible(Edges(b, rom, n * 5)))
  {
    forall k | 0 <= k < n
      ensures SafeNext(IsaRun(Visible(b), rom, k), rom)
    {
      SafeProgramAt(Visible(b), rom, k);
    }
    SafeRunOnBoard(b, rom, n);
  }

  // ----- exactly which runs agree -----

  /** The next instruction is supported, and meets the exact condition of agreement. */
  predicate NextAgrees(s: Arch, rom: Rom) {
    var d := Decode(Fetched(s, rom));
    d.Supported? && Agreeing(s, d.ins, Fetched(s, rom))
  }

  lemma NextAgreesIff(s: Arch, rom: Rom)
    requires s.regs[0] == 0
    ensures IsaMachine(rom)(Retired(s)) == Retired(CodedMachine(rom)(s)) <==> NextAgrees(s, rom)
  {
    if Decode(Fetched(s, rom)).Supported? {
      StepAgreesIff(s, Fetched(s, rom));
    }
  }

  /** No instruction of the manual's machine changes x0. */
  lemma ZeroStaysZero(s: Arch, ins: Rv32)
    requires s.regs[0] == 0 && Execute(s, ins).Retired?
    ensures Execute(s, ins).next.regs[0] == 0
  {
  }

  lemma AgreeingKeepsZero(s: Arch, rom: Rom)
    requires s.regs[0] == 0 && NextAgrees(s, rom)
    ensures CodedMachine(rom)(s).regs[0] == 0
  {
    StepAgreesIff(s, Fetched(s, rom));
    ZeroStaysZero(s, Decode(Fetched(s, rom)).ins);
  }

  /** From a board whose x0 is zero, looked at every five edges, circuit and manual agree after each of n instructions
      if and only if each instruction executed is supported and meets the condition of StepAgreesIff. */
  lemma RunAgreesIff(b: Board, rom: Rom, n: nat)
    requires b.core.state == IF && Visible(b).regs[0] == 0
    ensures (forall k :: 0 <= k <= n ==> IsaRun(Visible(b), rom, k) == Retired(Visible(Edges(b, rom, k * 5)))) <==>
            (forall k :: 0 <= k < n ==> NextAgrees(Visible(Edges(b, rom, k * 5)), rom))
  {
    var s := Visible(b);
    forall k | 0 <= k <= n
      ensures Visible(Edges(b, rom, k * 5)) == CodedRun(s, rom, k)
    {
      ClockedRunRefines(b, rom, k);
    }
    CodedRunAgreesIff(s, rom, n);
  }

  lemma CodedRunAgreesIff(s: Arch, rom: Rom, n: nat)
    requires s.regs[0] == 0
    ensures (forall k :: 0 <= k <= n ==> IsaRun(s, rom, k) == Retired(CodedRun(s, rom, k))) <==>
            (forall k :: 0 <= k < n ==> NextAgrees(CodedRun(s, rom, k), rom))
  {
    var view, ok := (x: Arch) => Retired(x), (x: Arch) => NextAgrees(x, rom);
    AgreesIffWith(s, rom, n, view, (x: Arch) => x.regs[0] == 0, ok);
    AgreeUpToMeans(s, rom, n, view);
    ThroughoutMeans(s, rom, n, ok);
  }

  lemma AgreesIffWith(s: Arch, rom: Rom, n: nat, view: Arch -> Step, ready: Arch -> bool, ok: Arch -> bool)
    requires forall x :: view(x) == Retired(x)
    requires forall x :: ready(x) <==> x.regs[0] == 0
    requires forall x :: ok(x) <==> NextAgrees(x, rom)
    requires ready(s)
    ensures AgreeUpTo(CodedMachine(rom), IsaMachine(rom), view, s, n) <==> Throughout(CodedMachine(rom), ok, s, n)
  {
    forall x: Arch | ready(x)
      ensures IsaMachine(rom)(view(x)) == view(CodedMachine(rom)(x)) <==> ok(x)
    {
      NextAgreesIff(x, rom);
    }
    forall x: Arch | ready(x) && ok(x)
      ensures ready(CodedMachine(rom)(x))
    {
      AgreeingKeepsZero(x, rom);
    }
    RunsAgreeIff(CodedMachine(rom), IsaMachine(rom), view, ready, ok, s, n);
  }

  lemma AgreeUpToMeans(s: Arch, rom: Rom, n: nat, view: Arch -> Step)
    requires forall x :: view(x) == Retired(x)
    ensures AgreeUpTo(CodedMachine(rom), IsaMachine(rom), view, s, n) <==>
            forall k :: 0 <= k <= n ==> IsaRun(s, rom, k) == Retired(CodedRun(s, rom, k))
  {
    var coded, isa := CodedMachine(rom), IsaMachine(rom);
    if AgreeUpTo(coded, isa, view, s, n) {
      forall k | 0 <= k <= n
        ensures IsaRun(s, rom, k) == Retired(CodedRun(s, rom, k))
      {
        assert Iterate(isa, view(s), k) == view(Iterate(coded, s, k));
      }
    }
    if forall k :: 0 <= k <= n ==> IsaRun(s, rom, k) == Retired(CodedRun(s, rom, k)) {
      forall k | 0 <= k <= n
        ensures Iterate(isa, view(s), k) == view(Iterate(coded, s, k))
      {
        assert IsaRun(s, rom, k) == Retired(CodedRun(s, rom, k));
      }
    }
  }

  lemma ThroughoutMeans(s: Arch, rom: Rom, n: nat, ok: Arch -> bool)
    requires forall x :: ok(x) <==> NextAgrees(x, rom)
    ensures Throughout(CodedMachine(rom), ok, s, n) <==>
            forall k :: 0 <= k < n ==> NextAgrees(CodedRun(s, rom, k), rom)
  {
    if Throughout(CodedMachine(rom), ok, s, n) {
      forall k | 0 <= k < n
        ensures NextAgrees(CodedRun(s, rom, k), rom)
      {
        assert ok(Iterate(CodedMachine(rom), s, k));
      }
    }
    if forall k :: 0 <= k < n ==> NextAgrees(CodedRun(s, rom, k), rom) {
      forall k | 0 <= k < n
        ensures ok(Iterate(CodedMachine(rom), s, k))
      {
        assert NextAgrees(CodedRun(s, rom, k), rom);
      }
    }
  }
}
