/** The five-state processor: instruction fields, control decoding, datapath and the clock edge. */
module Multicycle {
  import opened Bits
  import opened Alu
  import opened RegFile

  type Bits7 = x: int | 0 <= x < 128

  type Bits3 = x: int | 0 <= x < 8

  /** A 32-bit instruction as its bits 31:25, 24:20, 19:15, 14:12, 11:7 and 6:0. */
  datatype Instr = Instr(funct7: Bits7, rs2: Bits5, rs1: Bits5, funct3: Bits3, rd: Bits5, opcode: Bits7)

  const OP_LOAD: nat := 0x03
  const OP_IMM: nat := 0x13
  const OP_STORE: nat := 0x23
  const OP_REG: nat := 0x33
  const OP_BRANCH: nat := 0x63

  const INITIAL_PC: Word := 0x0040_0000

  datatype Fsm = IF | ID | EX | MEM | WB

  // ----- datapath.v: the immediate -----

  /** {instr[31:25], instr[24:20]} extended with twenty copies of instr[31]. */
  function ImmediateI(i: Instr): Word {
    (if i.funct7 >= 64 then 0xFFFF_F000 else 0) + i.funct7 * 32 + i.rs2
  }

  /** {instr[31:25], instr[11:7]}, extended with zeros. */
  function ImmediateS(i: Instr): Word { i.funct7 * 32 + i.rd }

  /** {instr[31], instr[7], instr[30:25], instr[11:8], 0}, extended with zeros. */
  function ImmediateB(i: Instr): Word {
    i.funct7 / 64 * 4096 + i.rd % 2 * 2048 + i.funct7 % 64 * 32 + i.rd / 2 * 2
  }

  function Immediate(i: Instr): Word {
    if i.opcode == OP_BRANCH then ImmediateB(i)
    else if i.opcode == OP_LOAD || i.opcode == OP_IMM then ImmediateI(i)
    else if i.opcode == OP_STORE then ImmediateS(i)
    else 0
  }

  // ----- multicycle.v: control -----

  function AluCtrl(i: Instr): (op: nat)
    ensures Defined(op)
  {
    if i.opcode == OP_LOAD || i.opcode == OP_STORE then ALUOP_ADD
    else if i.opcode == OP_BRANCH then ALUOP_SUB
    else if i.opcode == OP_IMM then
      if i.funct3 == 0 then ALUOP_ADD
      else if i.funct3 == 2 then ALUOP_LT
      else if i.funct3 == 4 then ALUOP_XOR
      else if i.funct3 == 6 then ALUOP_OR
      else if i.funct3 == 7 then ALUOP_AND
      else if i.funct3 == 1 then ALUOP_LLS
      else if i.funct3 == 5 && i.funct7 == 0x00 then ALUOP_LRS
      else if i.funct3 == 5 && i.funct7 == 0x20 then ALUOP_ARS
      else ALUOP_AND
    else if i.opcode == OP_REG then
      if i.funct3 == 0 && i.funct7 == 0x00 then ALUOP_ADD
      else if i.funct3 == 0 && i.funct7 == 0x20 then ALUOP_SUB
      else if i.funct3 == 1 && i.funct7 == 0x00 then ALUOP_LLS
      else if i.funct3 == 5 && i.funct7 == 0x00 then ALUOP_LRS
      else if i.funct3 == 5 && i.funct7 == 0x20 then ALUOP_ARS
      else if i.funct3 == 2 && i.funct7 == 0x00 then ALUOP_LT
      else if i.funct3 == 7 && i.funct7 == 0x00 then ALUOP_AND
      else if i.funct3 == 6 && i.funct7 == 0x00 then ALUOP_OR
      else if i.funct3 == 4 && i.funct7 == 0x00 then ALUOP_XOR
      else ALUOP_AND
    else ALUOP_AND
  }

  predicate AluSrc(i: Instr) { i.opcode == OP_LOAD || i.opcode == OP_STORE || i.opcode == OP_IMM }

  predicate MemWrite(state: Fsm, i: Instr) { state == MEM && i.opcode == OP_STORE }

  predicate MemToReg(i: Instr) { i.opcode == OP_LOAD }

  predicate RegWrite(state: Fsm, i: Instr) {
    state == WB && (i.opcode == OP_LOAD || i.opcode == OP_IMM || i.opcode == OP_REG)
  }

  predicate LoadPc(state: Fsm) { state == WB }

  predicate PcSrc(i: Instr, zero: bool) { i.opcode == OP_BRANCH && zero }

  function NextState(state: Fsm): Fsm {
    match state
    case IF => ID
    case ID => EX
    case EX => MEM
    case MEM => WB
    case WB => IF
  }

  // ----- datapath.v: operands, write-back, program counter -----

  function AluResult(i: Instr, readData1: Word, readData2: Word): Word {
    Result(readData1, if AluSrc(i) then Immediate(i) else readData2, AluCtrl(i))
  }

  function WriteBackData(i: Instr, aluResult: Word, dReadData: Word): Word {
    if MemToReg(i) then dReadData else aluResult
  }

  function NextPc(pc: Word, i: Instr, zero: bool): Word {
    if PcSrc(i, zero) then (pc + Immediate(i)) % 0x1_0000_0000 else (pc + 4) % 0x1_0000_0000
  }

  // ----- the clock edge -----

  /** Every register of the processor proper. */
  datatype Core = Core(state: Fsm, pc: Word, regs: Registers, readData1: Word, readData2: Word)
  {
    function DAddress(i: Instr): Word { AluResult(i, readData1, readData2) }

    function DWriteData(): Word { readData2 }
  }

  /** One rising edge: everything on the right is the value before the edge. */
  function CoreEdge(c: Core, rst: bool, i: Instr, dReadData: Word): Core {
    var aluResult := AluResult(i, c.readData1, c.readData2);
    Core(if rst then IF else NextState(c.state),
         if rst then INITIAL_PC else if LoadPc(c.state) then NextPc(c.pc, i, ZeroFlag(aluResult)) else c.pc,
         if RegWrite(c.state, i) then c.regs[i.rd := WriteBackData(i, aluResult, dReadData)] else c.regs,
         c.regs[i.rs1],
         c.regs[i.rs2])
  }

  class Processor {
    var state: Fsm
    var pc: Word
    const regfile: RegFile

    ghost predicate Valid()
      reads this, regfile
    {
      regfile.Valid()
    }

    ghost function Snapshot(): Core
      requires Valid()
      reads this, regfile, regfile.registers
    {
      Core(state, pc, regfile.Contents(), regfile.readData1, regfile.readData2)
    }

    /** State, program counter and read ports power up with any value. */
    constructor (powerUpState: Fsm, powerUpPc: Word, powerUp1: Word, powerUp2: Word)
      ensures Valid() && fresh(regfile) && fresh(regfile.registers)
      ensures state == powerUpState && pc == powerUpPc
      ensures forall r :: 0 <= r < 32 ==> Snapshot().regs[r] == 0
    {
      state, pc := powerUpState, powerUpPc;
      regfile := new RegFile(powerUp1, powerUp2);
    }

    method PosEdge(rst: bool, instr: Instr, dReadData: Word)
      requires Valid()
      modifies this, regfile, regfile.registers
      ensures Valid()
      ensures Snapshot() == CoreEdge(old(Snapshot()), rst, instr, dReadData)
    {
      var aluResult := AluResult(instr, regfile.readData1, regfile.readData2);
      var writeBack := WriteBackData(instr, aluResult, dReadData);
      regfile.PosEdge(instr.rs1, instr.rs2, instr.rd, writeBack, RegWrite(state, instr));
      if rst {
        pc := INITIAL_PC;
      } else if LoadPc(state) {
        pc := NextPc(pc, instr, ZeroFlag(aluResult));
      }
      state := if rst then IF else NextState(state);
    }
  }
}
