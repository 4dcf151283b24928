# Coursework projects, modelled and proved in Dafny

This project models the parts of the repository whose behaviour is hard to see from one body of code, and proves
what they promise. Run `dafny verify dfyconfig.toml` to check it.

- **The single-precision multiplier** (`Low_Level_HW_2`), modules `FpMult`, `FloatGrid`, `FpCorrectness`,
  `FpProperties`. `FpMult` is the circuit, wire by wire and width by width. `FloatGrid` says what rounding means
  without mentioning guard bits, sticky bits or carries: a value is an integer number of units, and each of the six
  modes is the choice of one magnitude of the format (zero, the normal numbers, infinity) by order or distance. The
  main theorem joins the two for every pair of normal operands and every mode, overflow and underflow included. The
  format and the exceptions are those of IEEE 754-2008, sections 4.3, 7.4, 7.5 and 7.6, as the project's own notes
  simplify them: NaNs count as infinities and denormals as zeros.
- **The five-state RISC-V processor** (`Low_Level_HW_1`), modules `Alu`, `RegFile`, `Multicycle`, `Testbench`,
  `Iteration`, `Refinement`, `Rv32i`, `Rv32iEncoding`, `ZeroResults`, `Rv32iAgreement`. Clock edges of the processor
  with its clocked memories refine a machine that carries out one instruction at a time as the circuit is wired; that
  machine is compared with the RISC-V Unprivileged ISA manual, version 20191213, sections 2.2 to 2.6.
- **Trade statistics** (`RealTime_Embedded_Systems`), modules `Timestamps`, `Trades`, `MovingAverage`, `Ledgers`,
  `SlidingWindow`, `RetainedTrades`, `UsageRule`, `Candlestick`, `CandlestickStore`. The lazily pruned maps are compared
  with recomputation from the whole log of calls, whatever the order in which late trades arrive.
- **Queue, worker and routing** (`RealTime_Embedded_Systems`), modules `ThreadSafeQueue`, `WorkerProtocol`,
  `SymbolRouting`. The threads are a state machine whose steps are single accesses to shared state; the theorems hold
  in every interleaving.
- **Three small routines**: `DigitalRoot` (assembly), `Vector` (byte-level growable vector) and `MoveEditor` (the
  sailing game's path editor with undo).

`Bits`, `Sets` and `Sequences` hold shared arithmetic, choice from sets, and sequences that grow at their end.

Where code and documentation disagree, the model follows the code:

- The processor extends the immediates of SW and BEQ with zeros (`datapath.v:38` and `datapath.v:43`), where the
  manual extends the sign, and lets x0 be written (`regfile.v:29-31`). The agreement theorem states exactly which
  instructions in which states are affected; `BackwardBranchJumpsForward` and `ZeroRegisterWritten` are concrete ones.
- The class comment of the moving average asks for one call per minute (`finnhub_data.hpp:174-176`). That is not
  enough: `LateTradesLinger` is a counterexample, `QueryReports` says exactly what is reported instead, and
  `QueryExactIff` says when that is right, and
  `CoveredWindowExact` gives a rule for callers that is enough. The comment on `prune` expects one stale entry; there is
  one more than minutes missing from the window (`PruneFinds`), so it is right if and only if none is missing
  (`PruneFindsOneIff`), and `PruneFindsMany` is a family of runs with as many as one likes.
- A candlestick's highest price starts at the smallest positive normal number, so it is exact if and only if some price
  reaches that number (`FoldHighestIff`); `ZeroPriceHidden` is a candlestick where none does.
- The move editor counts declared moves from zero but does not clear the record (`main.c:953-968`), and the game clears
  it entry by entry for living players only (`main.c:1143-1168`), not when a new game begins (`main.c:552-557`). So an
  edit may begin over moves that a sunk ship's last turn left behind. What is proved of the declared moves holds for any
  such record; `RecordIsPathIff` and `SessionRecordIff` say exactly when the record holds them and nothing else, and
  `LeftoverMovesStay` is a record where it does not.
- The multiplier decides underflow before rounding and, in the two nearest modes, always flushes it to zero. So there
  a product between half the smallest normal number and that number is not rounded to its nearest neighbour:
  `NearestModesNearestIff` gives the exact range, `FlushedToFarEnd` a member of it.

Assumptions that stand for what is outside the model:

- The board's memories answer on the clock edge, show a read the contents before a simultaneous write, have 512
  bytes, and the data memory holds words most significant byte first. The testbench shows the ports only
  (`top_proc_tb.v:35-47`).
- For the theorems about windows, clock readings and timestamps are not negative, the clock does not run backward, and
  no trade is stamped in a later minute than the clock (`ValidLog`). The methods, and what is proved of totals and
  retained trades, need none of this.
- The move editor starts with the ship's right cell on the lake, as it is for every ship in an even column.

## Model

| member | source | states |
|---|---|---|
| FpCorrectness.NormalizeExact | Low_Level_HW_2/hdl/normalized_mult.sv:9-21 | the bit selections cut the 48-bit product into mantissa and remainder without loss; guard and sticky compare the remainder with half of the last place kept, and the 10-bit exponent does not wrap |
| FpCorrectness.ExactProductValue | Low_Level_HW_2/hdl/fp_mult.sv:82-101 | the 48-bit product of the extended mantissas, scaled by the exponents, is the exact product of the two numbers |
| FpCorrectness.ProductSplit | Low_Level_HW_2/hdl/normalized_mult.sv:9-21 | at any exponent the exact product is the normalized mantissa in units of the last place plus a remainder that guard and sticky place against one half |
| FpCorrectness.NormalRange | Low_Level_HW_2/hdl/fp_mult.sv:99-118 | with the normalized exponent in 1 to 254, the unrounded word is the exact product's lower neighbour in the format |
| FpCorrectness.OutsideRange | Low_Level_HW_2/hdl/fp_mult.sv:104-105 | exponents outside that range mean a product strictly below the smallest normal number, or at least 2^128 |
| FpCorrectness.NeighbourChosen | Low_Level_HW_2/hdl/rounded_mult.sv:15-29 | for a value between two neighbours the increment picks the one that each of the six modes asks for |
| FpCorrectness.PostRoundExact | Low_Level_HW_2/hdl/fp_mult.sv:108-117 | a carry out of the rounded mantissa moves into the exponent as if both were one number; neither width overflows |
| FpCorrectness.PackExact | Low_Level_HW_2/hdl/fp_mult.sv:104-118 | the overflow test and the packed 31 bits agree with that number |
| FpCorrectness.RangeTests | Low_Level_HW_2/hdl/fp_mult.sv:104-105 | the underflow bit reads the exponent before rounding and the overflow bit the magnitude after rounding, both as unbounded numbers |
| FpCorrectness.InterpByExponent | Low_Level_HW_2/hdl/exception_mult.sv:17-25 | the exponent field alone decides the class: 0 is zero, 255 is infinity, everything between is normal, whatever sign and fraction |
| FpCorrectness.SpecialOperands | Low_Level_HW_2/hdl/exception_mult.sv:16-92 | with an exponent field of 0 or 255 in an operand, the table for zeros and infinities in every mode: zero times infinity alone is not a number, and gives plus infinity |
| FpCorrectness.TinyOutcome | Low_Level_HW_2/hdl/exception_mult.sv:128-166 | an exponent below 1 takes the underflow table, and then the product lies strictly between zero and the smallest normal number |
| FpCorrectness.HugeOutcome | Low_Level_HW_2/hdl/exception_mult.sv:93-127 | a rounded magnitude of at least 2^128 takes the overflow table, whose entry is the mode's rounding of the product |
| FpCorrectness.PlainOutcome | Low_Level_HW_2/hdl/exception_mult.sv:167-172 | otherwise the result is the rounding of the product, with only the inexact flag, set exactly when they differ |
| FpCorrectness.CorrectRounding | Low_Level_HW_2/hdl/fp_mult.sv:82-118 | main theorem: for all operands with exponent fields from 1 to 254 and all six modes the result has the product's sign and the magnitude the mode's definition assigns to the exact product, over the whole format |
| FloatGrid.RoundsToUnique | Low_Level_HW_2/hdl/rounded_mult.sv:18-28 | the definition of the six modes admits one result only, so the main theorem fixes every bit |
| FloatGrid.RoundsToMonotone | Low_Level_HW_2/hdl/rounded_mult.sv:18-28 | the definition is monotone in the value in every mode |
| FpProperties.DirectedModesBracket | Low_Level_HW_2/hdl/exception_mult.sv:95-172 | the toward-zero and away results enclose the product, are equal exactly when it is representable and adjacent otherwise; the two infinity modes are these two, by sign |
| FpProperties.NearestModesNearestIff | Low_Level_HW_2/hdl/exception_mult.sv:134-138 | a nearest mode returns a nearest magnitude if and only if the product is not strictly between half the smallest normal number and that number |
| FpProperties.FlushedToFarEnd | Low_Level_HW_2/hdl/exception_mult.sv:134-138 | a concrete product that is flushed to zero although the smallest normal number is nearer |
| FpProperties.NearestModesOverflowIff | Low_Level_HW_2/hdl/exception_mult.sv:95-103 | the nearest modes return infinity if and only if the product is past the halfway point to 2^128, or on it unless near_up meets a negative result |
| FpProperties.ResultMonotone | Low_Level_HW_2/hdl/fp_mult.sv:82-118 | a larger operand magnitude never gives a smaller result magnitude, from zero through underflow, carries and overflow to infinity, whatever the other operand |
| FpProperties.ResultOnGrid | Low_Level_HW_2/README.md:21-23 | no denormal and no NaN is ever produced |
| FpProperties.FlagsExact | Low_Level_HW_2/hdl/exception_mult.sv:39-172 | each of the six flags is set if and only if what its name says is true of operands, exact product and result |
| FpProperties.StatusPacking | Low_Level_HW_2/hdl/fp_mult.sv:96-96 | each status bit carries its flag, in the order the testbench decodes, and bits 6 and 7 are zero |
| FpProperties.TestbenchAssertions | Low_Level_HW_2/test/assertions.sv:17-37 | the testbench's exclusion and result-shape assertions hold for all operands and modes, not only those it samples |
| FpProperties.OperandsCommute | Low_Level_HW_2/hdl/fp_mult.sv:99-118 | swapping the operands changes neither result nor flags |
| FpProperties.NegationMirrors | Low_Level_HW_2/hdl/rounded_mult.sv:18-28 | negating an operand while swapping the infinity modes negates the result and keeps the flags, if and only if it is neither a near_up tie nor zero times infinity |
| FpProperties.HalfwayTieMeaning | Low_Level_HW_2/hdl/rounded_mult.sv:25-25 | the excepted ties are exactly the products halfway between two neighbours |
| Alu.ArithmeticShiftDivides | Low_Level_HW_1/hdl/alu.v:43-43 | the arithmetic right shift divides the signed operand by a power of two, rounding down |
| Alu.SignedArithmetic | Low_Level_HW_1/hdl/alu.v:38-40 | addition, subtraction and comparison of words agree with the signed numbers they spell, modulo 2^32 |
| Alu.BitsOfResult | Low_Level_HW_1/hdl/alu.v:35-37 | each of the 32 places of a bitwise and, or and exclusive or is the and, the or and the difference of the operands' places |
| Bits.BitwiseBits | Low_Level_HW_1/hdl/alu.v:35-37 | place by place, any bitwise operation combines the operands' bits and no others |
| RegFile.RegFile.constructor | Low_Level_HW_1/hdl/regfile.v:14-20 | all registers start at zero |
| RegFile.RegFile.PosEdge | Low_Level_HW_1/hdl/regfile.v:22-33 | one edge: both reads see the contents before the write, and exactly the addressed register changes |
| Multicycle.Processor.PosEdge | Low_Level_HW_1/hdl/multicycle.v:144-158 | one edge in place takes state, program counter, registers and read ports to the specified next core state |
| Testbench.LoadAfterStore | Low_Level_HW_1/test/top_proc_tb.v:35-47 | a word stored is loaded back from the same address, and all bytes but its four keep their values |
| Testbench.BigEndian | Low_Level_HW_1/test/top_proc_tb.v:35-47 | loaded and stored words lie in four consecutive bytes, the most significant first, around the end of the memory too |
| Testbench.System.PosEdge | Low_Level_HW_1/test/top_proc_tb.v:35-47 | one edge of the processor with both clocked memories, in place, is the specified edge of the board |
| Refinement.FetchAndDecode | Low_Level_HW_1/hdl/regfile.v:22-33 | two edges after IF the instruction and its operands have arrived and nothing visible has changed |
| Refinement.ExecuteToWriteBack | Low_Level_HW_1/hdl/multicycle.v:129-158 | from EX to WB the operands hold still; memory changes at the MEM edge only, registers and program counter at the WB edge only |
| Refinement.FiveEdges | Low_Level_HW_1/hdl/multicycle.v:144-158 | five edges from IF carry out one instruction and return to IF, whatever the output registers held before |
| Refinement.ClockedRunRefines | Low_Level_HW_1/hdl/multicycle.v:81-158 | for every program and n, 5n edges give exactly the registers, program counter and memory of n instructions |
| Refinement.ResetThenRun | Low_Level_HW_1/hdl/datapath.v:86-100 | one reset edge from any state starts such a run at 0x00400000; only a write already at its edge is still completed |
| Rv32iEncoding.DecodeIff | Low_Level_HW_1/hdl/multicycle.v:81-120 | the reference decoder against the manual's formats: a word decodes to an instruction if and only if it is that instruction's encoding, so nothing else is called supported |
| Rv32iAgreement.ImmediatesAsCoded | Low_Level_HW_1/hdl/datapath.v:36-43 | I immediates equal the manual's; S and B immediates are too large by 2^12 and 2^13 exactly when instruction bit 31 is set |
| Rv32iAgreement.AluComputes | Low_Level_HW_1/hdl/alu.v:34-45 | the six operations other than shifts compute what the manual means, the bitwise ones by their 32 places |
| Rv32iAgreement.AluShifts | Low_Level_HW_1/hdl/alu.v:41-43 | the three shifts compute what the manual means and depend on five bits of the amount |
| Rv32iAgreement.ControlMatchesDecode | Low_Level_HW_1/hdl/multicycle.v:81-141 | for all supported encodings, control decoding selects the manual's operation, operands, immediate and writes |
| Rv32iAgreement.StoreAddress | Low_Level_HW_1/hdl/datapath.v:43-43 | a store's 32-bit address is right if and only if its offset is not negative, and its nine memory address bits are always right |
| Rv32iAgreement.StepAgreesIff | Low_Level_HW_1/hdl/datapath.v:38-100 | a supported instruction does what the manual says if and only if it writes no nonzero value to x0 and, when it is a taken branch, is a forward one to an instruction boundary |
| Rv32iAgreement.UnsupportedActs | Low_Level_HW_1/hdl/multicycle.v:81-141 | an encoding outside the subset does exactly what a certain supported one does if it has one of the five opcodes, and otherwise only moves on: the circuit never stops |
| Rv32iAgreement.BackwardBranchJumpsForward | Low_Level_HW_1/hdl/datapath.v:38-38 | a concrete backward branch that lands 2^13 bytes too far |
| Rv32iAgreement.ZeroRegisterWritten | Low_Level_HW_1/hdl/regfile.v:29-31 | a concrete instruction that leaves a nonzero value in x0 |
| Rv32iAgreement.SafeInstrAgrees | Low_Level_HW_1/hdl/regfile.v:29-31 | an instruction that can be seen to be safe in the listing, no-operations included, agrees with the manual in every state with x0 zero and an aligned program counter, and keeps both |
| Rv32iAgreement.SafeInstrIff | Low_Level_HW_1/hdl/regfile.v:29-31 | and no other does: an instruction agrees with the manual in all such states if and only if it is safe |
| ZeroResults.ZeroWritten | Low_Level_HW_1/hdl/alu.v:34-45 | the instructions of a short list compute zero in every state in which x0 is zero |
| ZeroResults.NonzeroWritten | Low_Level_HW_1/hdl/alu.v:34-45 | every other writing instruction computes another value in some such state |
| Rv32iAgreement.SafeRunOnBoard | Low_Level_HW_1/hdl/multicycle.v:81-158 | end to end: as long as the manual's machine fetches safe instructions only, whatever the rest of the memory holds, the clocked board does exactly what the manual says |
| Rv32iAgreement.SafeProgramRuns | Low_Level_HW_1/hdl/multicycle.v:81-158 | in particular with a memory full of safe instructions, for any number of steps |
| Rv32iAgreement.RunAgreesIff | Low_Level_HW_1/hdl/multicycle.v:81-158 | with x0 zero at the start, board and manual agree after each of n instructions if and only if each one executed is supported and meets the condition of StepAgreesIff |
| Timestamps.FloorOfTimestamp | RealTime_Embedded_Systems/src/timestamps.hpp:17-20 | from the epoch on, the floor is the start of the minute that contains the timestamp |
| Timestamps.FloorBeforeEpoch | RealTime_Embedded_Systems/src/timestamps.hpp:17-20 | before it, the floor is the end of that minute, for the remainder is negative |
| Timestamps.DivisionTruncates | RealTime_Embedded_Systems/src/finnhub_data.cpp:11-11 | integer division cuts off toward zero on both sides of it |
| Trades.ScaleTruncates | RealTime_Embedded_Systems/src/finnhub_data.cpp:9-10 | a scaled number is the integer between zero and a million times the number that is nearest to the latter |
| MovingAverage.ContributionTruncates | RealTime_Embedded_Systems/src/finnhub_data.cpp:7-13 | a trade adds its scaled volume to the count, and to the sum the product of scaled price and scaled volume, a millionth of it cut off toward zero |
| MovingAverage.TotalUpdate | RealTime_Embedded_Systems/src/finnhub_data.cpp:97-100 | changing one minute's entry changes the sum over the map by the difference |
| MovingAverage.TotalPartition | RealTime_Embedded_Systems/src/finnhub_data.cpp:130-141 | the sum over a map is the sum over what a threshold keeps plus the sum over what it drops |
| MovingAverage.MovingAverage.constructor | RealTime_Embedded_Systems/src/finnhub_data.cpp:80-80 | an empty average that stores one minute more than its window |
| MovingAverage.MovingAverage.AddTrade | RealTime_Embedded_Systems/src/finnhub_data.cpp:84-105 | adding a trade in place: too old trades are ignored, others counted in their minute and in the totals, then pruned if too large |
| MovingAverage.MovingAverage.GetStatic | RealTime_Embedded_Systems/src/finnhub_data.cpp:107-122 | a query creates the current minute's entry, prunes if too large, and reports everything but the current minute, scaled back, with the quotient of the two sums or zero |
| MovingAverage.StaticMeans | RealTime_Embedded_Systems/src/finnhub_data.cpp:117-121 | the reported sum and volume are a millionth of the integers, and the reported value times the volume is the sum, or zero without volume |
| MovingAverage.MovingAverage.Prune | RealTime_Embedded_Systems/src/finnhub_data.cpp:130-141 | in whatever order the hash map is visited, exactly the entries below the threshold go and the totals lose exactly their sums |
| SlidingWindow.CallKeepsTotals | RealTime_Embedded_Systems/src/finnhub_data.cpp:97-141 | every call, at any clock reading and with any timestamp, keeps the running totals equal to the sums over the map |
| SlidingWindow.TotalsAlways | RealTime_Embedded_Systems/src/finnhub_data.cpp:84-141 | so after any calls at all m_sum and m_count equal the sums over the per-minute map |
| SlidingWindow.CallKeepsConsistent | RealTime_Embedded_Systems/src/finnhub_data.cpp:84-122 | on a clock that does not run backward, every call keeps: entries of the window equal the log's, and there are no more entries than minutes to store |
| SlidingWindow.RunsConsistent | RealTime_Embedded_Systems/src/finnhub_data.cpp:84-141 | the same after every run of calls, for every window |
| SlidingWindow.EntriesSumToWindow | RealTime_Embedded_Systems/src/finnhub_data.cpp:117-118 | per-minute totals of a window add up to the window's total recomputed call by call |
| SlidingWindow.QueryReports | RealTime_Embedded_Systems/src/finnhub_data.cpp:107-122 | after any run a query reports the documented window plus what lingers from before it, and so the window if and only if nothing lingers |
| SlidingWindow.QueryExactIff | RealTime_Embedded_Systems/src/finnhub_data.cpp:113-116 | a query reports exactly the documented window if and only if it takes the pruning branch or the entries from before the window sum to nothing |
| SlidingWindow.CoveredWindowExact | RealTime_Embedded_Systems/src/finnhub_data.hpp:159-176 | sliding window theorem: if each past minute of the window saw a trade stamped in it or a query, a query reports exactly all logged trades of those minutes, however late they arrived |
| UsageRule.LateTradesLinger | RealTime_Embedded_Systems/src/finnhub_data.hpp:174-176 | one call per minute is not enough: in any minute, two arrivals of one trade that follow the rule are still reported after their window, wrongly unless the trade adds nothing |
| UsageRule.PruneFinds | RealTime_Embedded_Systems/src/finnhub_data.cpp:130-141 | whenever a call prunes, there is exactly one stale entry more than minutes of the window, the current one included, without a trade or a query |
| UsageRule.PruneFindsOneIff | RealTime_Embedded_Systems/src/finnhub_data.cpp:124-129 | so prune removes one entry, as its comment says, if and only if every minute of the window and the current one saw a trade or a query, this call included |
| UsageRule.QueryPrunesOneIff | RealTime_Embedded_Systems/src/finnhub_data.cpp:113-116 | for a query, if and only if every past minute of the window did |
| UsageRule.PruneFindsMany | RealTime_Embedded_Systems/src/finnhub_data.cpp:124-129 | for every window w, a run after which one prune finds w + 1 stale entries at once |
| RetainedTrades.ReplayIsRetained | RealTime_Embedded_Systems/src/finnhub_data.cpp:84-141 | after any calls on any clock, map and totals are those of the retained trades: accepted ones, less the minutes before the threshold at each pruning |
| RetainedTrades.RunningTotals | RealTime_Embedded_Systems/src/finnhub_data.cpp:97-99 | after any calls m_count is the sum of the retained trades' scaled volumes, and m_sum that of their contributions; with none negative, m_sum is below their exact sum by less than one unit per trade, and below price times volume in exact reals by at most one unit plus price plus volume per trade; m_count is below the exact volume by at most one unit per trade |
| RetainedTrades.ReportedTotals | RealTime_Embedded_Systems/src/finnhub_data.cpp:117-118 | after any calls a query reports the sums of the retained trades of all other minutes, sum and count with the same bounds |
| RetainedTrades.DocumentedTotals | RealTime_Embedded_Systems/src/finnhub_data.cpp:7-13 | the documented window's sums are those of its logged trades, sum and count with the same bounds |
| Candlestick.FoldOpens | RealTime_Embedded_Systems/src/finnhub_data.cpp:15-32 | the open price is that of the first to arrive among the trades with the least timestamp |
| Candlestick.FoldCloses | RealTime_Embedded_Systems/src/finnhub_data.cpp:15-32 | the close price is that of the last to arrive among the trades with the greatest timestamp |
| Candlestick.FoldLowest | RealTime_Embedded_Systems/src/finnhub_data.cpp:28-30 | the lowest price is exact |
| Candlestick.FoldHighestIff | RealTime_Embedded_Systems/src/finnhub_data.cpp:25-27 | the highest price is exact if and only if some price reaches the smallest positive normal number; otherwise that number is reported |
| Candlestick.ZeroPriceHidden | RealTime_Embedded_Systems/src/finnhub_data.hpp:86-87 | a single trade priced zero is reported with a highest price above zero |
| Candlestick.FoldVolume | RealTime_Embedded_Systems/src/finnhub_data.cpp:31-31 | the volume is the sum of the scaled volumes |
| Candlestick.OrderOfArrivalIrrelevant | RealTime_Embedded_Systems/src/finnhub_data.cpp:15-32 | with distinct timestamps, any permutation of the arrivals gives the same candlestick |
| CandlestickStore.CandlestickManager.AddTrade | RealTime_Embedded_Systems/src/finnhub_data.cpp:43-67 | adding a trade in place: ignored if too old, else folded into its minute, and one stale candlestick evicted if there are too many and a stale one exists |
| CandlestickStore.CandlestickManager.GetCandlestick | RealTime_Embedded_Systems/src/finnhub_data.cpp:69-78 | the five numbers of a stored minute, or five zeros for an absent one |
| CandlestickStore.EvictionFits | RealTime_Embedded_Systems/src/finnhub_data.cpp:54-66 | one candlestick too many implies a stale one, so eviction restores the bound and touches no minute of the window |
| CandlestickStore.StepKeeps | RealTime_Embedded_Systems/src/finnhub_data.cpp:43-67 | each call keeps the bound on the map and the agreement of the window's candlesticks with the log |
| CandlestickStore.RunAgrees | RealTime_Embedded_Systems/src/finnhub_data.hpp:90-105 | after every run, whichever stale entries were evicted: at most the stored number of candlesticks, and those of the window are the folds of all their logged trades |
| CandlestickStore.WindowMinuteExact | RealTime_Embedded_Systems/src/finnhub_data.cpp:69-78 | at any later time, a minute still in the window is found if and only if a trade of it was logged, and then holds the fold of all of them |
| CandlestickStore.ReportedCandle | RealTime_Embedded_Systems/src/finnhub_data.cpp:34-37 | the five reported numbers of such a minute, in terms of all its logged trades |
| ThreadSafeQueue.ThreadSafeQueue.DequeueConditional | RealTime_Embedded_Systems/src/thread_safe_queue.cpp:21-32 | one pass through the lock waits, returns a default value or takes the front item, by queue and flag |
| ThreadSafeQueue.DequeueAtomic | RealTime_Embedded_Systems/src/thread_safe_queue.cpp:21-32 | however other threads interleave, a worker that takes the lock ends its attempt as that method does on the queue it found, for two flag readings made meanwhile |
| ThreadSafeQueue.EnqueueAtomic | RealTime_Embedded_Systems/src/thread_safe_queue.cpp:5-10 | however other threads interleave, a call of enqueue adds its own item to the queue it found |
| WorkerProtocol.NextKeepsSafe | RealTime_Embedded_Systems/src/thread_safe_queue.cpp:5-50 | every step of every thread keeps mutual exclusion, the wake-up discipline, the meaning of the flag, and that nothing is popped from an empty queue |
| WorkerProtocol.NextKeepsInv | RealTime_Embedded_Systems/src/queued_worker.ipp:14-40 | and that every item is accounted for, in order |
| WorkerProtocol.EnqueuedAreOffered | RealTime_Embedded_Systems/src/thread_safe_queue.cpp:5-10 | in every interleaving what is pushed is what enqueue was called with, in the order of the calls; only the last call may still be about to push |
| WorkerProtocol.FifoAccounting | RealTime_Embedded_Systems/src/queued_worker.ipp:34-40 | in every interleaving the pushed items are, in order, those the worker's runs have finished with, the one in hand and those queued; each run has processed all it took but at most its last item, dropped only once stop has begun |
| WorkerProtocol.EveryRunInOrder | RealTime_Embedded_Systems/src/queued_worker.ipp:14-40 | what each run of the worker has processed, later runs after a restart included, are consecutive pushed items from where the run before it stopped taking |
| WorkerProtocol.AnyWorkHappens | RealTime_Embedded_Systems/src/queued_worker.ipp:14-40 | nothing is ruled out: for any lists of items some interleaving enqueues exactly these, processes each list in a run of its own, and stops and restarts after each |
| WorkerProtocol.NoLostWakeup | RealTime_Embedded_Systems/src/thread_safe_queue.cpp:21-25 | a worker asleep on a queue with items is about to be notified, and none is asleep once wakeConsumers has notified |
| WorkerProtocol.IdleMeansDone | RealTime_Embedded_Systems/src/queued_worker.ipp:34-40 | while nobody stops, worker and producer can both do nothing only with the worker asleep, the queue empty and every item pushed taken by an ended run or processed in this one |
| WorkerProtocol.ItemsGetProcessed | RealTime_Embedded_Systems/src/queued_worker.ipp:34-40 | and they get there: an interleaving that begins with q items queued has, with k new items and w spurious wake-ups, at most 6q + 19 + 14k + 5w steps |
| WorkerProtocol.StopBoundsWorker | RealTime_Embedded_Systems/src/queued_worker.ipp:24-31 | from the raising of the flag the worker ends within seven steps of its own, from the notification within six, however the others interleave |
| WorkerProtocol.StopNeverBlocks | RealTime_Embedded_Systems/src/thread_safe_queue.cpp:46-50 | after the notification it can take each of them, at once or after the few steps in which another thread leaves the lock |
| WorkerProtocol.StuckMeansJoined | RealTime_Embedded_Systems/src/queued_worker.ipp:24-31 | once the flag is up, no thread can take a step if and only if stop has joined the worker and the producer is outside; and then the worker has ended |
| WorkerProtocol.StopTerminates | RealTime_Embedded_Systems/src/queued_worker.ipp:24-31 | stop returns: from the raising of the flag, every interleaving with k new items has at most 14 + 4k steps, and one that cannot be extended has joined the ended worker |
| SymbolRouting.AssignSymbols | RealTime_Embedded_Systems/src/worker_setup.hpp:47-54 | each worker's list is the symbols at positions congruent to its number, in order |
| SymbolRouting.RoundOf | RealTime_Embedded_Systems/src/worker_setup.hpp:47-54 | the j-th symbol of worker w's list is the one at position w + j times the number of workers |
| SymbolRouting.CreateTasksMap | RealTime_Embedded_Systems/src/worker_setup.hpp:64-81 | the map has exactly the symbols, each with the queues that its last position names, modulo the two queue counts |
| SymbolRouting.RoutedToOneWorker | RealTime_Embedded_Systems/src/worker_setup.hpp:41-54 | distinct symbols are partitioned among the workers |
| SymbolRouting.LoadOf | RealTime_Embedded_Systems/src/worker_setup.hpp:41-54 | the exact load of each worker |
| SymbolRouting.LoadsBalanced | RealTime_Embedded_Systems/src/worker_setup.hpp:41-54 | any two loads differ by at most one |
| SymbolRouting.RoutingsAgree | RealTime_Embedded_Systems/src/worker_setup.hpp:47-81 | at equal counts both ways of routing send each symbol to the same worker, for recording and for statistics queues |
| SymbolRouting.RoutedSelected | RealTime_Embedded_Systems/src/finnhub_client.cpp:126-130 | a queue gets exactly the arrivals whose symbol the map sends there, those of different symbols too in the order of their arrival |
| SymbolRouting.SymbolSelected | RealTime_Embedded_Systems/src/finnhub_client.cpp:126-130 | the arrivals of one symbol are exactly those that carry it, in order |
| SymbolRouting.RoutingKeepsSymbol | RealTime_Embedded_Systems/src/finnhub_client.cpp:126-130 | what is pushed on a symbol's queue contains that symbol's arrivals, all and in order |
| SymbolRouting.ProcessedInOrder | RealTime_Embedded_Systems/src/queued_worker.ipp:34-40 | end to end: if the calls of enqueue bring a queue's arrivals in order, then in every interleaving what any run of its worker has processed of a symbol are consecutive arrivals of that symbol, in order |
| SymbolRouting.FirstRunInOrder | RealTime_Embedded_Systems/src/queued_worker.ipp:34-40 | and in a worker's first run a prefix of them |
| DigitalRoot.DigitalRoot | Microprocessors_And_Peripherals/01. Assembly/digital_root.s:15-45 | for every signed 32-bit input, -2^31 included, the result is the repeated decimal digit sum of its absolute value |
| DigitalRoot.Remainder | Microprocessors_And_Peripherals/01. Assembly/digital_root.s:30-35 | multiply, shift, multiply back and subtract give the remainder by nine |
| DigitalRoot.ReciprocalDivides | Microprocessors_And_Peripherals/01. Assembly/digital_root.s:44-45 | the reciprocal gives the exact quotient by nine for all magnitudes up to 2^31 |
| DigitalRoot.DigitSumOfDigits | Microprocessors_And_Peripherals/01. Assembly/digital_root.s:1-1 | however a number is written in decimal, its digit sum is the sum of these digits |
| DigitalRoot.DigitSumModNine | Microprocessors_And_Peripherals/01. Assembly/digital_root.s:30-38 | a digit sum is congruent to its number modulo nine |
| DigitalRoot.RootByNine | Microprocessors_And_Peripherals/01. Assembly/digital_root.s:26-38 | repeated digit sums end in the remainder by nine, with nine for nonzero multiples |
| Vector.ChunksConcat | Operating_Systems/05. Final/Memory Management/vector.c:45-45 | the elements in two adjoining runs of bytes are those of the first followed by those of the second |
| Vector.RemoveChunk | Operating_Systems/05. Final/Memory Management/vector.c:75-77 | closing a gap of one element's bytes removes exactly that element |
| Vector.Vector.constructor | Operating_Systems/05. Final/Memory Management/vector.c:14-24 | an empty vector with room for four elements |
| Vector.Vector.Realloc | Operating_Systems/05. Final/Memory Management/vector.c:38-38 | a block of the new size that keeps the bytes in use |
| Vector.Vector.GrowIfFull | Operating_Systems/05. Final/Memory Management/vector.c:36-43 | a full block is doubled, keeping its elements, so there is room for one more |
| Vector.Vector.Append | Operating_Systems/05. Final/Memory Management/vector.c:45-46 | the bytes written after those in use are one more element at the end |
| Vector.Vector.PushBack | Operating_Systems/05. Final/Memory Management/vector.c:34-48 | on bytes, in place: the sequence of elements gains the value at its end |
| Vector.Vector.PopBack | Operating_Systems/05. Final/Memory Management/vector.c:50-67 | the last element goes to the caller, or -1 on an empty vector, which stays as it is |
| Vector.Vector.CloseGap | Operating_Systems/05. Final/Memory Management/vector.c:74-78 | moving the bytes behind an element to the front removes that element and keeps the order of the others |
| Vector.Vector.RemoveAt | Operating_Systems/05. Final/Memory Management/vector.c:69-89 | the element at a valid index goes and the others keep their order; otherwise -1 and no change |
| Vector.Vector.ShrinkIfSparse | Operating_Systems/05. Final/Memory Management/vector.c:57-65 | a block less than half full is halved without touching the elements, but never below four |
| Vector.RunsKeepFits | Operating_Systems/05. Final/Memory Management/vector.c:34-89 | after any calls, failed ones included, capacity is four doubled some number of times, holds the elements, and is minimal or at least half full |
| Vector.PushesAmortized | Operating_Systems/05. Final/Memory Management/vector.c:36-43 | n pushes on a fresh vector relocate at most 2n elements |
| Vector.PushPopThrashes | Operating_Systems/05. Final/Memory Management/vector.c:57-65 | around a full block, four calls relocate nearly the whole vector twice and restore the shape |
| Vector.RelocationsUnbounded | Operating_Systems/05. Final/Memory Management/vector.c:34-67 | so with pops among the calls no such bound holds: for every constant c there are calls on a fresh vector that relocate more than c elements each on average |
| MoveEditor.ShipStays | Structured_Programming/main.c:1337-1363 | while the editor previews a path, findship still finds the ship where it was |
| MoveEditor.BeginsOnShip | Structured_Programming/main.c:1337-1350 | a session begins on the first cell that shows the player's ship, 2219, 4219, 6219 or 5219 for players 1 to 4, or in the corner if none does, with no move declared |
| MoveEditor.ArrowMeaning | Structured_Programming/main.c:973-1092 | keys 72, 77, 80 and 75: the step of one row or two columns, the number recorded, the edge, the taking back of an opposite move, the limit of 6 or 8 moves, cells 14219 and 4158, and the cells drawn, each in its own numbers |
| MoveEditor.KeyByKey | Structured_Programming/main.c:966-1113 | 13 ends the session, 113 is as good as a new session with an empty record, arrows change the editor, and any other key does nothing |
| MoveEditor.PressKeepsInv | Structured_Programming/main.c:971-1107 | every key, arrows at edges and obstacles included, keeps the editor's invariant |
| MoveEditor.SessionKeepsInv | Structured_Programming/main.c:966-1113 | so does every sequence of keys up to Enter |
| MoveEditor.SessionSafe | Structured_Programming/main.c:953-1114 | for every key sequence and whatever the record held: at most 6 declared moves, 8 for ship 1; none undoes the one before; they lead to the cursor over open cells of the board in columns of the ship's parity; land and wreckage stay |
| MoveEditor.RecordIsPathIff | Structured_Programming/main.c:953-968 | every session leaves a record that holds the declared moves and nothing else if and only if the record was empty at the start |
| MoveEditor.SessionRecordIff | Structured_Programming/main.c:966-1113 | for each session: its record is just the declared path if and only if Q was pressed, or the record was empty at the start from the farthest move on that was ever declared |
| MoveEditor.LeftoverMovesStay | Structured_Programming/main.c:953-968 | a concrete leftover record that Enter passes on, opposite neighbours included, though no move was declared |
| MoveEditor.QRestores | Structured_Programming/main.c:1093-1106 | after any keys, Q gives back lake and cursor as they were at the start and an empty record, and so the whole start if and only if the record was empty |
| MoveEditor.OppositeUndoes | Structured_Programming/main.c:974-1003 | the opposite arrow takes back the declared move and the cursor, the record if and only if the entry was empty, and the lake if and only if the place was not already previewed |
| MoveEditor.MoveEditor.constructor | Structured_Programming/main.c:956-965 | the backup is a copy of the lake and the cursor is on the ship |
| MoveEditor.MoveEditor.FindShip | Structured_Programming/main.c:1337-1350 | the scan in place returns the specified code of the first matching cell, or 0 |
| MoveEditor.MoveEditor.SetMovements | Structured_Programming/main.c:1355-1363 | both cells at the cursor show the path unless the left one shows a ship |
| MoveEditor.MoveEditor.UnsetMovements | Structured_Programming/main.c:1369-1374 | both cells at the cursor get their original values back |
| MoveEditor.MoveEditor.PressArrow | Structured_Programming/main.c:973-1092 | the four arrow cases in place are the specified step of the editor |
| MoveEditor.MoveEditor.PressKey | Structured_Programming/main.c:971-1107 | one pass of the key switch in place is the specified step of the editor |
| MoveEditor.MoveEditor.DeclareMove | Structured_Programming/main.c:966-1113 | the whole loop in place ends in the specified state, which satisfies the invariant |

## Left out

- A 32-bit float is a record of its sign, exponent and fraction, so the slicing of a, b and z into these fields is not modelled; nor are rounding modes outside the enumeration, which latch z.
- The unsized constants in concatenations such as the zero before the magnitude of infinity are read as one bit, which is what is left of them after truncation to 32 bits.
- The contents of `rom.v`, `ram.v`, `fp_mult_top.sv` and `multiplication.sv` are not part of this model.
- The processor's state register has no illegal codes and no wire is undefined; of encodings outside the subset `UnsupportedActs` says what they do, not what the manual reserves them for.
- Misaligned loads and stores are treated as supported, because the manual allows an environment to support them.
- `calc.v` and `decoder.v`: a decoder over eight inputs.
- MovingAverage.MovingAverage.GetStatic: the three results are exact reals, so rounding of doubles is not modelled; nor is overflow of 64-bit sums.
- MovingAverage.MovingAverage.AddTrade: prices and volumes are exact reals scaled toward zero, so rounding of doubles is not modelled, nor is overflow of the 32-bit product of milliseconds and minutes in the threshold; the mutex of the two classes is left out, and per-minute averages and candlesticks are values inside their maps.
- CandlestickStore.ReportedCandle: the volume is divided as a real; the largest and the smallest positive normal double are parameters of the model.
- SlidingWindow.CoveredWindowExact: a condition on the log alone, and sufficient only; the exact condition, on the map the query finds, is `QueryExactIff`.
- ThreadSafeQueue.ThreadSafeQueue.DequeueConditional: one pass of the wait loop with the flag readings as inputs; waiting and waking are in the state machine, which also has the only model of `loop`, `start` and `stop`.
- WorkerProtocol.FifoAccounting: one producer and one worker per queue, stop and start not called at the same time, as their comments demand; a second start or stop without the other between them, `dequeue`, `front`, `isEmpty` and destruction are left out.
- WorkerProtocol.StopTerminates: an item's work is one step, that is, it is assumed to finish.
- SymbolRouting.CreateTasksMap: needs at least one queue of each kind, which configuration guarantees; queues are named by position.
- Websocket, JSON, configuration, files, CPU affinity, metrics, logging, the reconnect loop and the timed worker: I/O, wall-clock behaviour and library wrappers.
- DigitalRoot.DigitalRoot: the stack, the program counter and the unused low half of the product are left out.
- Vector.Vector.PushBack: allocation succeeds; overflow of the `int` capacity, `vector_destroy`, and a value pointer into the vector's own block are not modelled.
- MoveEditor.MoveEditor.DeclareMove: keys come as a sequence, and an end of the sequence stands for still waiting; drawing, the saved preview positions and the console buffer are left out, and so is the execution of the record. The lake's cells are not negative, so the remainder by 1000 needs no sign convention.
- The rest of the sailing game, `hash.s`, `sum_of_natural_numbers.s`, the serial modem, microcontroller drivers, shell and plotting scripts: console, hardware or system calls around easy folds.
