# Y86-64 SEQ emulator, modelled in Dafny

This project models the emulator core of a Y86-64 simulator. The repository has it twice: a C++ version (`y86-64_simulator/src`) and a TypeScript port inside the visualizer (`y86-64_visualizer/services/simulatorService.ts`). The core is:

- the `.yo` object-file loader, in both versions;
- the register file and the bounds-checked, little-endian, byte-addressable memory;
- the sequential (SEQ, not pipelined) processor. Each step runs fetch, decode, execute, memory, write-back and PC update for one instruction. Status codes are AOK/HLT/ADR/INS and condition codes are ZF/SF/OF;
- the simulation driver, `runSimulation`. It loads the text, snapshots the CPU, then steps and snapshots while the status is AOK, at most 10000 times.

Modules, one per file:

| file | module | what it holds |
|---|---|---|
| `words.dfy` | `Words` | 64-bit words as integers in [0, 2^64), their signed reading, little-endian byte splitting |
| `registers.dfy` | `Registers` | the register file: a spec on `seq<Word>` and the `Register` class over an array |
| `memory.dfy` | `Memories` | memory: a spec on `seq<Byte>` and the `Memory` class over an array |
| `isa.dfy` | `Isa` | status and condition codes, opcode tables, operand selection, the ALU, OF, the condition test |
| `processor.dfy` | `Processor` | the stage functions and `StepSpec` on a `Machine`, and the `Cpu` class whose stage methods are proved to compute them |
| `instructions.dfy` | `Instructions` | what a step does for each instruction, stated over the bytes at PC; push/pop and call/ret pairs |
| `text.dfy` | `Text` | line splitting, trimming, hex parsing, the C library's base-16 conversion, pair cutting |
| `cpp_loader.dfy` | `CppLoader` | `Loader::load` of the C++ version |
| `ts_loader.dfy` | `TsLoader` | `Loader.load` of the TypeScript port, with its regular expression |
| `driver.dfy` | `Simulation` | `captureState`, the step loop and `runSimulation` |

## Modelling choices

- **One processor, the TypeScript sequencing.** The two versions differ in how a cycle is sequenced. This model follows the TypeScript port:
  - a failed fetch or memory access sets ADR and ends the cycle at once;
  - write-back and PC update do nothing unless the status is AOK.

  CALL stores the return address valP, as the C++ memory stage does (cpu.cpp:271-275). The TypeScript port stores valA, which is a defect; see Findings. The other C++ divergences are under Left out.
- **Words.** A 64-bit value is an integer in [0, 2^64): the bit pattern. Its signed reading is `ToSigned`. `AsUint64` and `AsInt64` model `BigInt.asUintN(64, ·)` and `BigInt.asIntN(64, ·)`, and the C casts between `uint64_t` and `int64_t`.

  The TypeScript `BigInt64Array` stores signed values and `valE` is kept signed. Storing the bit pattern instead is equivalent, because every use either reads it back signed or narrows it with `asUintN`. AND and XOR work bit by bit on the patterns.
- **Memory size** is `MEM_SIZE = 0x20000`, the TypeScript `MAX_MEM_SIZE`. The C++ `Memory::MAX_SIZE` is 0x2000 (memory.h:6), and that model uses 0x20000 too.
- **Unknown opcodes** 0xC–0xF fetch as one-byte instructions and act as NOP, as both versions do. Status INS is never produced (`Processor.StepSpec` states this).
- **Loaders.**
  - The TypeScript loader cuts lines with `split('\n')`.
  - The C++ loader cuts them with `std::getline`: a final newline yields no empty last line.
  - The C++ address and bytes are read by `std::stoull` / `std::stoi` in base 16. These are modelled from the C library's `strtoull`/`strtol`: leading white space, an optional sign, an optional `0x` prefix, and failure when there are no digits or the value is out of range.
  - In the C++ loader, a `|` before the first `:` makes the region length wrap around, so the region runs to the end of the line.
  - The first pair that does not parse abandons the rest of its line.
- **The overflow flag is the corrected one.** Both versions compute OF with sign tests that miss two overflowing operand pairs: `addq` of MIN to MIN, and `subq` of MIN from 0 (see Findings). The machine deliberately sets the corrected OF instead: `Isa.ConditionCodes`, used by `Processor.Cpu.Execute` and stated per step by `Instructions.StepOpq`. On those two pairs only, OF is set where the source leaves it clear, so a following `jl`, `jge`, `cmovl` or `cmovge` goes the other way. The source's own flags are kept beside it:
  - `Isa.ConditionCodesAsWritten` is the formula as the source writes it;
  - `Isa.ConditionCodesAgree` proves the two agree exactly away from the two pairs;
  - `Instructions.StepOpqAsWritten` restates an OPq step against the source's flags.
- **Where the written description and the code disagree, the code is followed**, except for the overflow flag above.
  - The format description speaks of an even-length hex string. Both loaders accept an odd length; the last pair is then a single digit.
  - The description says write-back is skipped on HLT/ADR/INS. In the C++ version only HLT and INS are checked. In the TypeScript sequencing modelled here a failed stage never reaches write-back, so the missing ADR test cannot matter; the C++ sequencing is under Left out.

## Model

| member | source | states |
|---|---|---|
| Words.ToSigned | y86-64_visualizer/services/simulatorService.ts:218-219 | the signed reading of a word is in [-2^63, 2^63), congruent to it mod 2^64, and negative exactly when the top bit is set |
| Words.AsUint64 | y86-64_visualizer/services/simulatorService.ts:253 | `BigInt.asUintN(64, x)` is a word congruent to x mod 2^64 |
| Words.AsInt64 | y86-64_visualizer/services/simulatorService.ts:229 | `BigInt.asIntN(64, x)` is in the signed range, congruent to x, and x itself when x fits |
| Words.SignedRoundTrip | y86-64_visualizer/services/simulatorService.ts:218-229 | signed and unsigned readings convert into each other without loss |
| Words.WordBytesRoundTrip | y86-64_simulator/src/memory.cpp:28-57 | reading back the eight little-endian bytes of a word gives the word |
| Words.BytesWordRoundTrip | y86-64_simulator/src/memory.cpp:28-57 | splitting the word read from eight bytes gives back those bytes |
| Words.LittleEndianInjective | y86-64_simulator/src/memory.cpp:39-57 | different byte sequences of one length read as different numbers |
| Registers.Write | y86-64_visualizer/services/simulatorService.ts:33-37 | setReg writes a register id 0..14 and leaves every other id's reading alone; NONE (15) changes nothing |
| Registers.NoneReadsZero | y86-64_simulator/src/register.cpp:8-18 | NONE reads as 0 whatever is written to it |
| Registers.LaterWriteWins | y86-64_visualizer/services/simulatorService.ts:33-37 | of two writes to one register the later wins |
| Registers.Register.constructor | y86-64_visualizer/services/simulatorService.ts:24-27 | a new register file is all zero |
| Registers.Register.Reset | y86-64_visualizer/services/simulatorService.ts:29-31 | reset zeroes every slot |
| Registers.Register.SetReg | y86-64_visualizer/services/simulatorService.ts:33-37 | the slots after setReg are `Write` of the slots before |
| Registers.Register.GetReg | y86-64_visualizer/services/simulatorService.ts:39-44 | getReg returns the register for 0..14 and 0 otherwise |
| Memories.StoreWord | y86-64_visualizer/services/simulatorService.ts:75-83 | a stored word puts byte i of the value at addr + i and changes no other byte |
| Memories.LoadStoreSame | y86-64_visualizer/services/simulatorService.ts:75-100 | a word read right after it was written at the same address is the written word |
| Memories.LoadStoreOther | y86-64_visualizer/services/simulatorService.ts:75-100 | a store leaves every word that does not overlap it unchanged |
| Memories.StoreLoadSame | y86-64_visualizer/services/simulatorService.ts:75-100 | writing back the word just read changes nothing |
| Memories.WriteBytesOk | y86-64_visualizer/services/simulatorService.ts:354-361 | a run of byte writes fails exactly when it runs past the end of memory |
| Memories.WriteBytesEffect | y86-64_simulator/src/loader.cpp:46-56 | byte j of a run lands at addr + j where in bounds, and nothing outside the run changes |
| Memories.Memory.constructor | y86-64_visualizer/services/simulatorService.ts:54-56 | a new memory is MEM_SIZE zero bytes |
| Memories.Memory.Reset | y86-64_visualizer/services/simulatorService.ts:58-60 | reset zeroes every byte |
| Memories.Memory.WriteByte | y86-64_visualizer/services/simulatorService.ts:62-66 | writeByte fails exactly when addr is outside [0, MEM_SIZE), then changes nothing; otherwise it stores the byte |
| Memories.Memory.ReadByte | y86-64_visualizer/services/simulatorService.ts:68-73 | readByte fails (value 0) exactly when addr is out of bounds; otherwise it returns the byte |
| Memories.Memory.WriteWord | y86-64_visualizer/services/simulatorService.ts:75-83 | writeWord fails and changes nothing unless all eight bytes fit; otherwise memory becomes StoreWord |
| Memories.Memory.ReadWord | y86-64_visualizer/services/simulatorService.ts:85-100 | readWord fails (value 0) unless all eight bytes fit; otherwise it returns their little-endian value |
| Isa.Stat.Code | y86-64_visualizer/services/simulatorService.ts:406 | the status number the trace shows is 1..4, and 1 exactly for AOK |
| Isa.HighNibble | y86-64_visualizer/services/simulatorService.ts:143 | `(b >> 4) & 0xF` is the nibble n with 16n <= b < 16n + 16 |
| Isa.LowNibble | y86-64_visualizer/services/simulatorService.ts:144 | `b & 0xF` is what is left of b after its high nibble |
| Isa.AluOperands | y86-64_visualizer/services/simulatorService.ts:201-215 | only OPQ picks a function other than ADD; PUSHQ/CALL add -8 to valB, POPQ/RET add 8 |
| Isa.ExecAlu | y86-64_visualizer/services/simulatorService.ts:217-229 | ADD and SUB give the exact signed sum / difference narrowed to 64 bits; AND and XOR give the bitwise AND / XOR of the patterns; an unknown function gives 0 |
| Isa.AndBitsBit | y86-64_visualizer/services/simulatorService.ts:225 | every bit of the AND is the AND of the two operand bits |
| Isa.XorBitsBit | y86-64_visualizer/services/simulatorService.ts:226 | every bit of the XOR is the sum modulo 2 of the two operand bits |
| Isa.BitsDetermine | y86-64_simulator/src/cpu.cpp:185-190 | two words with the same 64 bits are equal |
| Isa.BitAndBits | y86-64_simulator/src/cpu.cpp:185-187 | `a & b` is the one word whose bits are the ANDs of the operand bits |
| Isa.BitXorBits | y86-64_simulator/src/cpu.cpp:188-190 | `a ^ b` is the one word whose bits are the XORs of the operand bits |
| Isa.BitAlgebra | y86-64_visualizer/services/simulatorService.ts:225-226 | AND is commutative, and a word XORed with itself is 0 |
| Isa.StackAdjust | y86-64_visualizer/services/simulatorService.ts:211-214 | the stack adjustments move the pointer by 8 modulo 2^64 |
| Isa.ConditionCodes | y86-64_visualizer/services/simulatorService.ts:232-243 | ZF is result == 0, SF is the result's sign, OF is false for AND/XOR; OF is the corrected overflow (see Modelling choices) |
| Isa.OverflowAsWrittenSound | y86-64_visualizer/services/simulatorService.ts:236-242 | the source's OF is never a false alarm: whenever it is set, the exact signed result does not fit in 64 bits |
| Isa.ConditionCodesAgree | y86-64_visualizer/services/simulatorService.ts:232-243 | the model's flags equal the source's exactly when the operands are not MIN + MIN or 0 - MIN; on those the model sets OF and the source does not |
| Isa.OverflowIsOutOfRange | y86-64_visualizer/services/simulatorService.ts:236-242 | the corrected OF is set exactly when the exact signed result does not fit in 64 bits |
| Isa.OverflowAsWrittenMisses | y86-64_visualizer/services/simulatorService.ts:236-242 | the as-written OF is clear for MIN + MIN and 0 - MIN, which overflow |
| Isa.OverflowAsWrittenElsewhere | y86-64_simulator/src/cpu.cpp:201-229 | away from those two operand pairs the as-written and corrected OF agree |
| Isa.CondAfterCompare | y86-64_visualizer/services/simulatorService.ts:284-295 | after `subq a, b` each condition is the signed comparison of b with a its name says |
| Isa.CondAfterCompareAsWritten | y86-64_simulator/src/cpu.cpp:216-219 | with the as-written OF, comparing 0 with MIN reports 0 < MIN |
| Processor.FetchStage | y86-64_visualizer/services/simulatorService.ts:139-175 | fetch fails with ADR on a read out of bounds; it takes icode/ifunc from the byte at PC; HALT sets HLT and keeps valP = PC; otherwise valP is PC + 1 (+1 with a register byte, +8 with a constant) and stays within memory |
| Processor.MemoryStage | y86-64_visualizer/services/simulatorService.ts:248-282 | the memory stage changes neither PC, CC nor registers; a failure sets ADR and leaves memory unchanged |
| Processor.WritebackStage | y86-64_visualizer/services/simulatorService.ts:297-313 | write-back changes only registers |
| Processor.UpdatePCStage | y86-64_visualizer/services/simulatorService.ts:315-327 | the PC update changes only PC |
| Processor.StepSpec | y86-64_visualizer/services/simulatorService.ts:329-338 | a machine that is not AOK does not move, and a step never produces INS |
| Processor.Cpu.constructor | y86-64_visualizer/services/simulatorService.ts:124-128 | a new CPU over a memory: PC 0, AOK, ZF set, registers zero, the memory as given |
| Processor.Cpu.Reset | y86-64_visualizer/services/simulatorService.ts:130-135 | reset clears registers and condition codes, sets PC 0 and AOK, and leaves memory and signals alone |
| Processor.Cpu.SetSignals | y86-64_visualizer/services/simulatorService.ts:113-122 | the signal fields hold exactly the given signals; PC, stat and CC are unchanged |
| Processor.Cpu.Fetch | y86-64_visualizer/services/simulatorService.ts:139-175 | the new fields and the result are FetchStage of the old state |
| Processor.Cpu.Decode | y86-64_visualizer/services/simulatorService.ts:177-196 | the new fields are DecodeStage of the old state |
| Processor.Cpu.Execute | y86-64_visualizer/services/simulatorService.ts:198-246 | the new fields are ExecuteStage of the old state; for OPq the flags equal the source's exactly away from the two overflow pairs |
| Processor.Cpu.MemoryAccess | y86-64_visualizer/services/simulatorService.ts:248-282 | the new state and the result are MemoryStage of the old state |
| Processor.Cpu.Writeback | y86-64_visualizer/services/simulatorService.ts:297-313 | returns true exactly when AOK; the new state is WritebackStage of the old |
| Processor.Cpu.UpdatePC | y86-64_visualizer/services/simulatorService.ts:315-327 | the new state is UpdatePCStage of the old |
| Processor.Cpu.Step | y86-64_visualizer/services/simulatorService.ts:329-338 | the new state is StepSpec of the old |
| Instructions.InstrLength | y86-64_visualizer/services/simulatorService.ts:153-154 | instructions are 2 bytes (RRMOVQ, OPQ, PUSHQ, POPQ), 10 (IRMOVQ, RMMOVQ, MRMOVQ), 9 (JXX, CALL) or 1 (the rest) |
| Instructions.HaltStops | y86-64_visualizer/services/simulatorService.ts:147-151 | HALT sets HLT and changes nothing else; another step changes nothing |
| Instructions.FetchOutOfBounds | y86-64_visualizer/services/simulatorService.ts:140-141 | a PC outside memory gives ADR and nothing else changes |
| Instructions.FetchTruncated | y86-64_visualizer/services/simulatorService.ts:156-172 | an instruction that runs past the end of memory gives ADR and nothing else changes |
| Instructions.Fetched | y86-64_visualizer/services/simulatorService.ts:139-175 | fetching an instruction that lies wholly in memory succeeds, with its opcode, function, register byte (NONE, NONE without one), constant and next address |
| Instructions.Executed | y86-64_visualizer/services/simulatorService.ts:177-246 | decode then execute: valA/valB from SrcA/SrcB, valE from the ALU, CC only for OPQ, and nothing for JXX |
| Instructions.Cycle | y86-64_visualizer/services/simulatorService.ts:329-338 | after a good fetch the memory stage decides the step: on success write-back and PC update follow, on failure the cycle ends |
| Instructions.StepNop | y86-64_visualizer/services/simulatorService.ts:139-175 | NOP and opcodes 0xC-0xF only advance PC by one |
| Instructions.StepOpq | y86-64_visualizer/services/simulatorService.ts:210-243 | OPq sets rB := rB op rA with that result's condition codes; ADD/SUB are the exact signed operation narrowed to 64 bits; AND/XOR are the bitwise operations; an unknown function gives 0 with ZF set |
| Instructions.StepOpqAsWritten | y86-64_visualizer/services/simulatorService.ts:232-243 | an OPq step leaves the source's ZF and SF, and the source's OF except on MIN + MIN and 0 - MIN, where it sets OF |
| Instructions.StepCmov | y86-64_visualizer/services/simulatorService.ts:300-301 | rrmovq/cmovXX copies rA to rB when the condition holds, else changes no register; PC advances by 2 |
| Instructions.StepIrmovq | y86-64_visualizer/services/simulatorService.ts:207 | irmovq loads the constant into rB; PC advances by 10 |
| Instructions.Effective | y86-64_visualizer/services/simulatorService.ts:208-209 | the effective address is rB + D in signed 64-bit arithmetic |
| Instructions.StepMrmovq | y86-64_visualizer/services/simulatorService.ts:259-265 | mrmovq loads M[rB + D] into rA; an address out of bounds gives ADR and no other change |
| Instructions.StepRmmovq | y86-64_visualizer/services/simulatorService.ts:250-258 | rmmovq stores rA at rB + D; an address out of bounds gives ADR and no other change |
| Instructions.StepPush | y86-64_visualizer/services/simulatorService.ts:250-258 | pushq stores the old rA at RSP - 8 and sets RSP := RSP - 8; out of bounds gives ADR and no other change |
| Instructions.StepPop | y86-64_visualizer/services/simulatorService.ts:266-272 | popq loads M[RSP] into rA and sets RSP := RSP + 8, the loaded value winning for rA = RSP; out of bounds gives ADR |
| Instructions.StepCall | y86-64_simulator/src/cpu.cpp:271-275 | call pushes the address after the instruction at RSP - 8, sets RSP := RSP - 8 and jumps to the constant; out of bounds gives ADR |
| Instructions.CallStoresAsWritten | y86-64_visualizer/services/simulatorService.ts:250-258 | storing valA for CALL, as the TypeScript stage does, pushes 0 instead of the return address, which is never 0 |
| Instructions.StepRet | y86-64_visualizer/services/simulatorService.ts:273-279 | ret jumps to M[RSP] and sets RSP := RSP + 8; out of bounds gives ADR |
| Instructions.StepJump | y86-64_visualizer/services/simulatorService.ts:318-319 | jXX jumps to the constant when the condition holds, else to PC + 9; nothing else changes |
| Instructions.PushLeavesCode | y86-64_visualizer/services/simulatorService.ts:250-258 | after a pushq with its slot in memory, every byte outside the slot is unchanged |
| Instructions.PushThenPop | y86-64_visualizer/services/simulatorService.ts:250-272 | pushq rA then popq rB restores RSP and leaves rB holding the old rA |
| Instructions.CallThenRet | y86-64_simulator/src/cpu.cpp:271-280 | call f then ret at f returns to the byte after the call, with RSP restored |
| Text.Split | y86-64_visualizer/services/simulatorService.ts:344 | `split('\n')` gives at least one part, parts without separators, and parts that join back to the text |
| Text.SplitJoin | y86-64_visualizer/services/simulatorService.ts:344 | splitting joined parts that hold no separator gives the parts back |
| Text.GetLines | y86-64_simulator/src/loader.cpp:21 | the lines getline reads hold no newline; an empty text has none, any other text at least one; joined with newlines (plus a final empty line when the text ends in a newline) they give the text back |
| Text.SplitLast | y86-64_visualizer/services/simulatorService.ts:344 | the last part of a split is empty exactly when the text is empty or ends in the separator |
| Text.Find | y86-64_simulator/src/loader.cpp:23-28 | find returns the first index of the character, or -1 exactly when it is absent |
| Text.FindAfter | y86-64_simulator/src/loader.cpp:23-28 | a character missing from a prefix is found in the rest, shifted by the prefix's length |
| Text.Trim | y86-64_simulator/src/loader.cpp:4-11 | the trimmed text is the slice between the blank margins TrimBounds finds; it is empty exactly when the text is all spaces and tabs, and otherwise neither starts nor ends with one |
| Text.TrimOf | y86-64_simulator/src/loader.cpp:4-11 | blank runs around a text that starts and ends with non-blanks (or is empty) trim away to leave exactly that text |
| Text.ParseCHexPlain | y86-64_simulator/src/loader.cpp:36 | base-16 conversion of plain hex digits gives their value |
| Text.ParseCHexPrefixed | y86-64_simulator/src/loader.cpp:36 | a `0x` prefix followed by hex digits gives the digits' value |
| Text.ParseCHexNoDigits | y86-64_simulator/src/loader.cpp:35-38 | text without a hex digit after its blanks, sign and prefix does not convert |
| Text.PairBytesAt | y86-64_simulator/src/loader.cpp:46-56 | byte j of a region's pair bytes is the byte pair j reads as |
| Text.PairBytesStop | y86-64_simulator/src/loader.cpp:52-55 | the bytes stop before the first pair that does not read |
| Text.PairBytesAll | y86-64_visualizer/services/simulatorService.ts:354-361 | when every pair reads, there is one byte per pair |
| Text.WritePairsEffect | y86-64_simulator/src/loader.cpp:46-56 | writing a region's pairs that fit: pair j's byte is at addr + j, the rest of memory unchanged |
| CppLoader.Stoull | y86-64_simulator/src/loader.cpp:35-38 | an empty address text does not convert |
| CppLoader.StoiByte | y86-64_simulator/src/loader.cpp:49 | an empty pair does not convert |
| CppLoader.StoullHexAddress | y86-64_simulator/src/loader.cpp:36 | `0x` plus hex digits below 2^64 reads as their value |
| CppLoader.StoiHexPair | y86-64_simulator/src/loader.cpp:49 | two hex digits read as the byte they spell |
| CppLoader.LineRecord | y86-64_simulator/src/loader.cpp:23-42 | a line without ':' is skipped; a record always has a non-empty region |
| CppLoader.LineRecordOf | y86-64_simulator/src/loader.cpp:23-42 | a line `a:d` with nothing or a pipe-started comment after it is skipped exactly when trimmed `a` is empty or no number or trimmed `d` is empty, and otherwise records that number and trimmed `d` |
| CppLoader.LineRecordPipeFirst | y86-64_simulator/src/loader.cpp:27-42 | with a pipe character before the first `:`, the region is all the text after the `:`, trimmed |
| CppLoader.LineOk | y86-64_simulator/src/loader.cpp:46-56 | a line loads without error exactly when its bytes do not overrun memory |
| CppLoader.LoadOkIff | y86-64_simulator/src/loader.cpp:13-62 | the load returns false exactly when some line's bytes run past the end of memory |
| CppLoader.LoadLinesAt | y86-64_simulator/src/loader.cpp:21-59 | a skipped line is passed over; a record writes its bytes and stops the load if they overran |
| CppLoader.LoadNothing | y86-64_simulator/src/loader.cpp:13-62 | text in which no line survives the skips loads as all zeroes, returning true |
| CppLoader.RecordEffect | y86-64_simulator/src/loader.cpp:46-56 | a record that fits writes pair j's byte at address + j and changes nothing else |
| CppLoader.Load | y86-64_simulator/src/loader.cpp:13-62 | the result and the memory after the load are LoadSpec of the text, starting from cleared memory |
| CppLoader.WritePairs | y86-64_simulator/src/loader.cpp:46-56 | the pair loop writes exactly WriteBytes of the region's pair bytes |
| TsLoader.LeadingSpace | y86-64_visualizer/services/simulatorService.ts:348 | `\s*` takes the longest white-space prefix |
| TsLoader.LeadingHex | y86-64_visualizer/services/simulatorService.ts:348 | `[0-9a-fA-F]+` takes the longest hex prefix |
| TsLoader.LeadingSpaceUnique | y86-64_visualizer/services/simulatorService.ts:348 | the white-space split is the only one with its two properties |
| TsLoader.LeadingHexUnique | y86-64_visualizer/services/simulatorService.ts:348 | the hex split is the only one with its two properties |
| TsLoader.MatchRecord | y86-64_visualizer/services/simulatorService.ts:348-351 | both capture groups of a match are non-empty hex |
| TsLoader.MatchSound | y86-64_visualizer/services/simulatorService.ts:348 | a match cuts the line into white space, "0x", the address, white space, ':', white space, the data and a rest that does not start with a hex digit |
| TsLoader.MatchComplete | y86-64_visualizer/services/simulatorService.ts:348 | every line so cut matches, with those groups |
| TsLoader.PairByte | y86-64_visualizer/services/simulatorService.ts:355-356 | one or two hex digits always parse |
| TsLoader.DataBytes | y86-64_visualizer/services/simulatorService.ts:354-361 | a data group writes (length + 1) / 2 bytes |
| TsLoader.LineOk | y86-64_visualizer/services/simulatorService.ts:354-361 | a line loads without error exactly when it does not overrun memory |
| TsLoader.LineEffect | y86-64_visualizer/services/simulatorService.ts:349-362 | a matching line that fits writes one byte per pair at address + j and changes nothing else |
| TsLoader.LoadLinesAt | y86-64_visualizer/services/simulatorService.ts:347-363 | a non-matching line is passed over; a match writes its bytes and stops the load if they overran |
| TsLoader.LoadOkIff | y86-64_visualizer/services/simulatorService.ts:342-367 | the load is true exactly when no matching line overruns memory and some line matched |
| TsLoader.LoadNoMatch | y86-64_visualizer/services/simulatorService.ts:342-367 | text with no matching line returns false and leaves memory as it was |
| TsLoader.Load | y86-64_visualizer/services/simulatorService.ts:342-367 | the result and the memory after the load are LoadSpec of the text and the memory before |
| TsLoader.WritePairs | y86-64_visualizer/services/simulatorService.ts:354-361 | the pair loop writes exactly WriteBytes of the data's pair bytes |
| Simulation.RegView | y86-64_visualizer/services/simulatorService.ts:391-393 | the register view holds registers 0 .. n-1 as signed numbers, in order |
| Simulation.MemViewHas | y86-64_visualizer/services/simulatorService.ts:397-402 | the memory scan keeps exactly the non-zero aligned words below the scanned address, with their values |
| Simulation.SnapshotMemory | y86-64_visualizer/services/simulatorService.ts:396-402 | a snapshot's memory map lists exactly the non-zero aligned words, with their values |
| Simulation.Trace | y86-64_visualizer/services/simulatorService.ts:423-427 | the loop takes at most its fuel of steps |
| Simulation.Snapshots | y86-64_visualizer/services/simulatorService.ts:386-415 | snapshot i is the snapshot of machine i |
| Simulation.TraceChain | y86-64_visualizer/services/simulatorService.ts:423-427 | each machine of the trace is one step on from the one before |
| Simulation.TraceStatus | y86-64_visualizer/services/simulatorService.ts:423 | every machine of the trace but the last is AOK, and a trace shorter than its fuel ends on a status other than AOK |
| Simulation.RunFrom | y86-64_visualizer/services/simulatorService.ts:420-427 | the run starts at the machine, chains steps, holds at most fuel + 1 machines, is AOK up to its last, and stops early only on another status |
| Simulation.RunContinues | y86-64_visualizer/services/simulatorService.ts:423-427 | an AOK machine of the run with fuel left is followed by its step |
| Simulation.RunEnds | y86-64_visualizer/services/simulatorService.ts:423 | a machine of the run that is not AOK, or has no fuel left, is the last |
| Simulation.RunSnapshots | y86-64_visualizer/services/simulatorService.ts:420-427 | the snapshots of a run from AOK: 2 to fuel + 1 of them, AOK until the last, shorter only after a stop |
| Simulation.RunShape | y86-64_visualizer/services/simulatorService.ts:370-433 | the trace has 2 to 10001 snapshots; it starts at PC 0 with AOK, is AOK until the last, and is shorter only when it ends on a status other than AOK |
| Simulation.HaltAtStart | y86-64_visualizer/services/simulatorService.ts:370-433 | a program whose first byte is HALT gives two snapshots, the second HLT at PC 0 |
| Simulation.SnapshotsExtend | y86-64_visualizer/services/simulatorService.ts:426 | the snapshots of one machine more are those before plus one |
| Simulation.SnapshotsAppend | y86-64_visualizer/services/simulatorService.ts:426 | snapshotting a run with one machine appended appends its snapshot |
| Simulation.CaptureState | y86-64_visualizer/services/simulatorService.ts:386-415 | captureState returns the snapshot of the CPU's state |
| Simulation.CaptureRegisters | y86-64_visualizer/services/simulatorService.ts:391-393 | the register loop gives RAX .. R14 as signed numbers |
| Simulation.CaptureMemory | y86-64_visualizer/services/simulatorService.ts:397-402 | the memory loop gives the non-zero aligned words by address |
| Simulation.Steps | y86-64_visualizer/services/simulatorService.ts:420-427 | the loop returns the snapshots of the start machine and of each step while AOK, at most fuel steps |
| Simulation.StepNext | y86-64_visualizer/services/simulatorService.ts:424 | cpu.step() moves the state by one Next |
| Simulation.RunSimulation | y86-64_visualizer/services/simulatorService.ts:370-433 | runSimulation fails exactly when the text does not load; otherwise it returns RunSpec's trace |

## Left out

- File reading (`await file.text()`) and the asynchrony of `runSimulation` are left out. The model takes the text as a parameter. The thrown `Error` becomes the `LoadFailed` outcome.
- `console.error`, the C++ `std::cout` diagnostics, the C++ `main.cpp` JSON printer and the visualizer's UI components are I/O and are left out.
- JavaScript `Number` precision is not modelled:
  - `parseInt` of an address beyond 2^53;
  - `Number(...)` of register and memory values in a snapshot, and of a jump, call or return target.
  
  The model keeps these values exact. Snapshot registers are the exact signed values and memory words the exact unsigned ones.
- The C++ `CPU::step` ignores the stage results and runs every stage; write-back skips only on HLT/INS (cpu.cpp:314) and `updatePC` on anything but AOK (cpu.cpp:348). The model follows the TypeScript sequencing. In the C++ version, a failed fetch or memory access still lets decode, execute and write-back run, though the PC stays put.
- The C++ RMMOVQ out of bounds returns false without setting ADR (cpu.cpp:253-254). In the model it sets ADR, as the TypeScript port does.
- In the C++ decode, POPQ and RET take srcA = rA (cpu.cpp:110-116). The TypeScript port and the model take RSP. valA is not used by either instruction, so the architectural state agrees.
- The C++ `setCC` leaves OF as it was for an unknown ALU function (cpu.cpp:225-227). The model clears it, as the TypeScript port does. Either way valE is 0 and ZF is set.
- C++ signed overflow in `b + a` on `int64_t` (cpu.cpp:180-183) is undefined behaviour. It is modelled as the wrap-around the TypeScript port computes.
- The C++ memory size 0x2000 (memory.h:6) is not modelled. One memory of 0x20000 bytes serves both loaders.
- `std::stoull` and `std::stoi` are modelled through the C library's base-16 conversion without locales or `errno` use.
- `Register.getAll` is left out. It only hands out the array, and captureState reads registers one by one through getReg.
- Processor.Cpu.Execute: sets the corrected OF, not the source's, for `addq` of MIN to MIN and `subq` of MIN from 0, as described under Modelling choices; its contract states the exact agreement with the source's flags elsewhere.
- Processor.StepSpec: its own contract says only that a stopped machine stays put and that INS never appears. What a step does for each instruction is stated by the Instructions lemmas.

## Findings

| source | as written | input that shows it | evidently intended | confidence | as-written member | corrected member |
|---|---|---|---|---|---|---|
| y86-64_visualizer/services/simulatorService.ts:236-242 (and y86-64_simulator/src/cpu.cpp:210-220) | OF for ADD is set only when both operands are positive and the result negative, or both negative and the result positive; for SUB likewise with strict signs | `addq` of 0x8000000000000000 to itself: the result is 0, so the test `e > 0` fails and OF stays clear. `subq` of 0x8000000000000000 from 0: both tests need `b != 0`, so OF stays clear. `jl` after `cmpq` then reports 0 < MIN | OF set exactly when the exact signed result does not fit in 64 bits | not executed | Isa.OverflowAsWritten, with Isa.OverflowAsWrittenMisses, Isa.CondAfterCompareAsWritten, Isa.ConditionCodesAgree and Instructions.StepOpqAsWritten | Isa.Overflow, with Isa.OverflowIsOutOfRange and Isa.CondAfterCompare |
| y86-64_visualizer/services/simulatorService.ts:250-256 (with 181-185) | CALL stores valA, which decode leaves at 0 because CALL reads no register A | any `call`: the word pushed is 0, so the matching `ret` jumps to address 0 | CALL pushes the return address valP, as cpu.cpp:271-275 does | not executed | Processor.StoreValueAsWritten, with Instructions.CallStoresAsWritten | Processor.StoreValue, with Instructions.StepCall and Instructions.CallThenRet |
