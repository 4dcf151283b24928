/** The clocked register file: two read ports, one write port, all updated on the rising edge. */
module RegFile {
  import opened Bits

  type Bits5 = x: int | 0 <= x < 32

  type Registers = s: seq<Word> | |s| == 32 witness [0, 0, 0, 0, 0, 0, 0, 0, 0, 0, 0, 0, 0, 0, 0, 0,
                                                     0, 0, 0, 0, 0, 0, 0, 0, 0, 0, 0, 0, 0, 0, 0, 0]

  class RegFile {
    const registers: array<Word>
    var readData1: Word
    var readData2: Word

    ghost predicate Valid()
      reads this
    {
      registers.Length == 32
    }

    ghost function Contents(): Registers
      requires Valid()
      reads this, registers
    {
      registers[..]
    }

    /** Registers start at zero; the output registers power up with any value. */
    constructor (powerUp1: Word, powerUp2: Word)
      ensures Valid() && fresh(registers)
      ensures forall r :: 0 <= r < 32 ==> Contents()[r] == 0
      ensures readData1 == powerUp1 && readData2 == powerUp2
    {
      registers := new Word[32](_ => 0);
      readData1, readData2 := powerUp1, powerUp2;
    }

    /** All assignments are nonblocking: a read in the same cycle as a write sees the old value. */
    method PosEdge(readReg1: Bits5, readReg2: Bits5, writeReg: Bits5, writeData: Word, write: bool)
      requires Valid()
      modifies this, registers
      ensures Valid()
      ensures readData1 == old(Contents()[readReg1]) && readData2 == old(Contents()[readReg2])
      ensures Contents() == if write then old(Contents())[writeReg := writeData] else old(Contents())
    {
      readData1 := registers[readReg1];
      readData2 := registers[readReg2];
      if write {
        registers[writeReg] := writeData;
      }
    }
  }
}
