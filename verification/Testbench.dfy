/** The processor wired to its clocked memories.

    The memories answer on the clock edge and see the low nine address bits.  The instruction memory is
    given by the word it shows at each address, the data memory by its bytes, most significant first. */
module Testbench {
  import opened Bits
  import opened RegFile
  import opened Multicycle

  const MEMORY_SIZE := 512

  type Byte = x: int | 0 <= x < 256

  type Ram = s: seq<Byte> | |s| == MEMORY_SIZE witness seq(MEMORY_SIZE, _ => 0)

  type Rom = s: seq<Instr> | |s| == MEMORY_SIZE witness seq(MEMORY_SIZE, _ => Instr(0, 0, 0, 0, 0, 0))

  function Address(a: Word): (r: nat)
    ensures r < MEMORY_SIZE
  {
    a % MEMORY_SIZE
  }

  /** The four bytes of a word, most significant first. */
  function Bytes(w: Word): (bs: seq<Byte>)
    ensures |bs| == 4
  {
    [w / 0x100_0000, w / 0x1_0000 % 0x100, w / 0x100 % 0x100, w % 0x100]
  }

  function Join(b3: Byte, b2: Byte, b1: Byte, b0: Byte): Word {
    var high: int, low: int := b3 * 256 + b2, b1 * 256 + b0;
    high * 0x1_0000 + low
  }

  /** The address i bytes on. */
  function Onward(a: nat, i: nat): (b: nat)
    ensures b < MEMORY_SIZE
  {
    (a + i) % MEMORY_SIZE
  }

  function LoadWord(ram: Ram, a: nat): Word
    requires a < MEMORY_SIZE
  {
    Join(ram[a], ram[Onward(a, 1)], ram[Onward(a, 2)], ram[Onward(a, 3)])
  }

  function StoreWord(ram: Ram, a: nat, w: Word): Ram
    requires a < MEMORY_SIZE
  {
    ram[a := Bytes(w)[0]]
       [Onward(a, 1) := Bytes(w)[1]]
       [Onward(a, 2) := Bytes(w)[2]]
       [Onward(a, 3) := Bytes(w)[3]]
  }

  /** Dividing by 2^8 and 2^16 one after the other, and cutting a half word out of a word before or after. */
  lemma BytesOfHalves(w: Word)
    ensures w / 0x100_0000 == w / 0x1_0000 / 0x100
    ensures w / 0x100 % 0x100 == w % 0x1_0000 / 0x100 && w % 0x100 == w % 0x1_0000 % 0x100
  {
    var h, l := w / 0x1_0000, w % 0x1_0000;
    QuotientUnique(w, 0x100_0000, h / 0x100, h % 0x100 * 0x1_0000 + l);
    QuotientUnique(w, 0x100, h * 0x100 + l / 0x100, l % 0x100);
    RemainderShift(l / 0x100, 0x100, h);
    QuotientUnique(l / 0x100, 0x100, 0, l / 0x100);
  }

  lemma JoinBytes(w: Word)
    ensures Join(Bytes(w)[0], Bytes(w)[1], Bytes(w)[2], Bytes(w)[3]) == w
  {
    BytesOfHalves(w);
    JoinHalves(w / 0x1_0000, w % 0x1_0000);
  }

  lemma JoinHalves(high: nat, low: nat)
    ensures high / 0x100 * 0x100 + high % 0x100 == high && low / 0x100 * 0x100 + low % 0x100 == low
  {
  }

  lemma OnwardApart(a: nat)
    requires a < MEMORY_SIZE
    ensures a != Onward(a, 1) && a != Onward(a, 2) && a != Onward(a, 3)
    ensures Onward(a, 1) != Onward(a, 2) && Onward(a, 1) != Onward(a, 3) && Onward(a, 2) != Onward(a, 3)
  {
  }

  lemma FourUpdates(s: seq<Byte>, p: nat, q: nat, r: nat, t: nat, x: Byte, y: Byte, z: Byte, u: Byte)
    requires p < |s| && q < |s| && r < |s| && t < |s|
    requires p != q && p != r && p != t && q != r && q != t && r != t
    ensures var s' := s[p := x][q := y][r := z][t := u];
            && s'[p] == x && s'[q] == y && s'[r] == z && s'[t] == u
            && forall b :: 0 <= b < |s| && b !in [p, q, r, t] ==> s'[b] == s[b]
  {
  }

  lemma OnwardDistance(a: nat, i: nat)
    requires i < MEMORY_SIZE
    ensures (Onward(a, i) - a) % MEMORY_SIZE == i
  {
    var q := (a + i) / MEMORY_SIZE;
    QuotientUnique(i - q * MEMORY_SIZE, MEMORY_SIZE, -q, i);
    assert Onward(a, i) - a == i - q * MEMORY_SIZE;
  }

  lemma OthersAreFar(a: nat, b: nat)
    requires a < MEMORY_SIZE && b < MEMORY_SIZE && (b - a) % MEMORY_SIZE >= 4
    ensures b !in [a, Onward(a, 1), Onward(a, 2), Onward(a, 3)]
  {
    OnwardDistance(a, 1);
    OnwardDistance(a, 2);
    OnwardDistance(a, 3);
  }

  lemma LoadAfterStore(ram: Ram, a: nat, w: Word)
    requires a < MEMORY_SIZE
    ensures LoadWord(StoreWord(ram, a, w), a) == w
    ensures forall b :: 0 <= b < MEMORY_SIZE && (b - a) % MEMORY_SIZE >= 4 ==> StoreWord(ram, a, w)[b] == ram[b]
  {
    JoinBytes(w);
    OnwardApart(a);
    FourUpdates(ram, a, Onward(a, 1), Onward(a, 2), Onward(a, 3), Bytes(w)[0], Bytes(w)[1], Bytes(w)[2], Bytes(w)[3]);
    forall b | 0 <= b < MEMORY_SIZE && (b - a) % MEMORY_SIZE >= 4
      ensures StoreWord(ram, a, w)[b] == ram[b]
    {
      OthersAreFar(a, b);
    }
  }

  /** The four bytes from this address on, the most significant first, spell the number. */
  predicate Holds(ram: Ram, a: nat, w: int)
    requires a < 512
  {
    var b3: int, b2: int, b1: int, b0: int := ram[a], ram[(a + 1) % 512], ram[(a + 2) % 512], ram[(a + 3) % 512];
    w == b3 * 0x100_0000 + b2 * 0x1_0000 + b1 * 0x100 + b0
  }

  lemma BigEndian(ram: Ram, a: nat, w: Word)
    requires a < 512
    ensures Holds(ram, a, LoadWord(ram, a)) && Holds(StoreWord(ram, a, w), a, w)
  {
    LoadAfterStore(ram, a, w);
  }

  /** Processor and memories: every register a clock edge can change. */
  datatype Board = Board(core: Core, instr: Instr, dReadData: Word, ram: Ram)

  function BoardEdge(b: Board, rom: Rom, rst: bool): Board {
    var address := Address(b.core.DAddress(b.instr));
    Board(CoreEdge(b.core, rst, b.instr, b.dReadData),
          rom[Address(b.core.pc)],
          LoadWord(b.ram, address),
          if MemWrite(b.core.state, b.instr) then StoreWord(b.ram, address, b.core.DWriteData()) else b.ram)
  }

  class System {
    const rom: Rom
    const proc: Processor
    const ram: array<Byte>
    var instr: Instr
    var dReadData: Word

    ghost predicate Valid()
      reads this, proc, proc.regfile
    {
      proc.Valid() && ram.Length == MEMORY_SIZE
    }

    ghost function Snapshot(): Board
      requires Valid()
      reads this, ram, proc, proc.regfile, proc.regfile.registers
    {
      Board(proc.Snapshot(), instr, dReadData, ram[..])
    }

    constructor (rom: Rom, proc: Processor, ram: array<Byte>, powerUpInstr: Instr, powerUpData: Word)
      requires proc.Valid() && ram.Length == MEMORY_SIZE
      ensures Valid() && this.rom == rom && this.proc == proc && this.ram == ram
      ensures Snapshot() == Board(proc.Snapshot(), powerUpInstr, powerUpData, ram[..])
    {
      this.rom, this.proc, this.ram := rom, proc, ram;
      instr, dReadData := powerUpInstr, powerUpData;
    }

    method Store(a: nat, w: Word)
      requires Valid() && a < MEMORY_SIZE
      modifies ram
      ensures ram[..] == StoreWord(old(ram[..]), a, w)
    {
      ram[a] := Bytes(w)[0];
      ram[Onward(a, 1)] := Bytes(w)[1];
      ram[Onward(a, 2)] := Bytes(w)[2];
      ram[Onward(a, 3)] := Bytes(w)[3];
    }

    method PosEdge(rst: bool)
      requires Valid()
      modifies this, ram, proc, proc.regfile, proc.regfile.registers
      ensures Valid()
      ensures Snapshot() == BoardEdge(old(Snapshot()), rom, rst)
    {
      var aluResult := AluResult(instr, proc.regfile.readData1, proc.regfile.readData2);
      var address, fetched := Address(aluResult), rom[Address(proc.pc)];
      var loaded := LoadWord(ram[..], address);
      if MemWrite(proc.state, instr) {
        Store(address, proc.regfile.readData2);
      }
      proc.PosEdge(rst, instr, dReadData);
      instr, dReadData := fetched, loaded;
    }
  }
}
