/** Five clock edges of the board are one instruction of an atomic machine that decodes and executes
    exactly as the datapath is wired. */
module Refinement {
  import opened Bits
  import opened Iteration
  import opened Alu
  import opened RegFile
  import opened Multicycle
  import opened Testbench

  /** What a program can see. */
  datatype Arch = Arch(pc: Word, regs: Registers, ram: Ram)

  function Visible(b: Board): Arch { Arch(b.core.pc, b.core.regs, b.ram) }

  function Fetched(s: Arch, rom: Rom): Instr { rom[Address(s.pc)] }

  function CodedResult(s: Arch, i: Instr): Word { AluResult(i, s.regs[i.rs1], s.regs[i.rs2]) }

  /** One instruction, as the circuit carries it out. */
  function CodedStep(s: Arch, i: Instr): Arch {
    var result := CodedResult(s, i);
    Arch(NextPc(s.pc, i, ZeroFlag(result)),
         if RegWrite(WB, i)
         then s.regs[i.rd := WriteBackData(i, result, LoadWord(s.ram, Address(result)))]
         else s.regs,
         if MemWrite(MEM, i) then StoreWord(s.ram, Address(result), s.regs[i.rs2]) else s.ram)
  }

  /** Fetch and execute one instruction. */
  function CodedMachine(rom: Rom): Arch -> Arch { s => CodedStep(s, Fetched(s, rom)) }

  function CodedRun(s: Arch, rom: Rom, n: nat): Arch { Iterate(CodedMachine(rom), s, n) }

  /** One clock edge without reset. */
  function Edge(rom: Rom): Board -> Board { b => BoardEdge(b, rom, false) }

  function Edges(b: Board, rom: Rom, n: nat): Board { Iterate(Edge(rom), b, n) }

  /** The instruction reaches its register on the first edge and the operands theirs on the second. */
  lemma FetchAndDecode(b: Board, rom: Rom)
    requires b.core.state == IF
    ensures var d, i, s := Edges(b, rom, 2), Fetched(Visible(b), rom), Visible(b);
            && Visible(d) == s && d.core.state == EX && d.instr == i
            && d.core.readData1 == s.regs[i.rs1] && d.core.readData2 == s.regs[i.rs2]
  {
    var b1 := BoardEdge(b, rom, false);
    var b2 := BoardEdge(b1, rom, false);
    assert Edges(b, rom, 2) == Edges(b1, rom, 1) == Edges(b2, rom, 0);
  }

  /** From EX on, instruction and operands hold still: memory changes at the MEM edge only, registers and
      program counter at the WB edge only. */
  lemma ExecuteToWriteBack(d: Board, rom: Rom)
    requires d.core.state == EX && d.instr == Fetched(Visible(d), rom)
    requires d.core.readData1 == d.core.regs[d.instr.rs1] && d.core.readData2 == d.core.regs[d.instr.rs2]
    ensures var s, i := Visible(d), d.instr;
            && Visible(Edges(d, rom, 1)) == s
            && Visible(Edges(d, rom, 2)) == s.(ram := CodedStep(s, i).ram)
            && Visible(Edges(d, rom, 3)) == CodedStep(s, i)
            && Edges(d, rom, 3).core.state == IF
  {
    var d1 := BoardEdge(d, rom, false);
    var d2 := BoardEdge(d1, rom, false);
    var d3 := BoardEdge(d2, rom, false);
    assert Edges(d, rom, 1) == Edges(d1, rom, 0) == d1;
    assert Edges(d, rom, 2) == Edges(d1, rom, 1) == Edges(d2, rom, 0);
    assert Edges(d, rom, 3) == Edges(d1, rom, 2) == Edges(d2, rom, 1) == Edges(d3, rom, 0);
  }

  /** Five edges from IF carry out one instruction and return to IF, whatever the pipeline registers held. */
  lemma FiveEdges(b: Board, rom: Rom)
    requires b.core.state == IF
    ensures var s := Visible(b);
            && Visible(Edges(b, rom, 5)) == CodedStep(s, Fetched(s, rom))
            && Edges(b, rom, 5).core.state == IF
  {
    IterateSum(Edge(rom), b, 2, 3);
    FetchAndDecode(b, rom);
    ExecuteToWriteBack(Edges(b, rom, 2), rom);
  }

  /** Whole runs: 5n edges are n instructions. */
  lemma ClockedRunRefines(b: Board, rom: Rom, n: nat)
    requires b.core.state == IF
    ensures Visible(Edges(b, rom, n * 5)) == CodedRun(Visible(b), rom, n)
    ensures Edges(b, rom, n * 5).core.state == IF
  {
    var view, ready := (x: Board) => Visible(x), (x: Board) => x.core.state == IF;
    forall x: Board | ready(x)
      ensures ready(Block(Edge(rom), 5)(x)) && view(Block(Edge(rom), 5)(x)) == CodedMachine(rom)(view(x))
    {
      FiveEdges(x, rom);
    }
    IterateBlocks(Edge(rom), 5, b, n);
    RunsAgree(Block(Edge(rom), 5), CodedMachine(rom), view, ready, b, n);
  }

  /** One reset edge starts the run from any power-up state, including one in the middle of an instruction;
      that edge may still complete the write the interrupted instruction had reached. */
  lemma ResetThenRun(b: Board, rom: Rom, n: nat)
    ensures var r := BoardEdge(b, rom, true);
            && r.core.pc == 0x0040_0000
            && (b.core.state != WB ==> r.core.regs == b.core.regs)
            && (b.core.state != MEM ==> r.ram == b.ram)
            && Visible(Edges(r, rom, n * 5)) == CodedRun(Visible(r), rom, n)
  {
    ClockedRunRefines(BoardEdge(b, rom, true), rom, n);
  }
}
