# ZisK execution core: model and proofs

ZisK runs RISC-V programs on its own machine and proves the runs. This project models the path a
program takes through it, from instruction words to replayed traces, and proves what the parts
promise each other.

- **Decode and transpile.** `Decoder` reads 32-bit words; `Transpiler` turns each RV64IMA instruction
  into one to four micro-instructions stored by address; `Riscv` states what the RISC-V Unprivileged
  ISA (version 20191213) prescribes; `RiscvOps`, `MicroExec`, `MicroRuns` and `Simulation` show that
  running the micro-instructions does just that, for all operand aliasings; `Program` lifts this to
  whole programs and any number of steps.
  `DecoderExact` says which words decode at all.
- **Index and fetch.** `RomIndex` builds the vectors instructions are fetched from. `Bios` and
  `InitData` are the code around the program: start-up, data initialisation, output and exit. `Elf2Rom`
  puts the sections of a file together into one rom, and `Boot` follows a run of that rom from its
  first instruction to its last; `SectionData` says what it finds in memory, and `WholeRun` how it is
  recorded and replayed.
- **Step.** `Machine` gives one step of the machine as functions on states, in three variants: plain,
  recording the memory words it depends on, and replaying from recorded words. `Emulator.Emu` is the
  object whose methods update these states in place. `Precompiles` says what precompiles and free-input
  calls read and leave, and `TraceWords` which words are recorded.
- **Record and replay.** `RecordReplay`, `Traces`, `Chunks` and `ChunkReplay` prove that recording does
  not disturb a run, and that any chunk can be replayed from its start state and its recorded words
  alone. `ZiskEmulator` runs several recording threads and merges their traces. `RegTrace` and
  `FullTrace` trace register accesses during replay.
- **Memory.** `MemoryModel` is the memory as a value, `MemObject.Mem` the object; `MemoryLemmas` proves
  that both refine a byte map. `EmuContext` builds the initial memory.
- **Work distribution.** `Planner` cuts instruction counts into scopes, `TraceLayout` lays traces out in
  shared memory, and `RomHistogram` does so for the counters of executed instructions.

A function that returns `None`, or a method that ends in `Panic`, stands for a panic of the program.
Code that updates objects in place is modelled by classes whose methods are proved against functions on
values; the theorems are about these functions.

How the main results fit together: `Decoder.DecodeEncode` and `Program.AddZiskCode` put translated
instructions into a map; `RomIndex.ZiskRom.BuildIndexes` makes them fetchable; from there
`Program.ProgramSimulated` matches every RISC-V run by a run of the emulator. Any such run can be
recorded by threads (`ZiskEmulator.ComputeMinimalTraces`), and every chunk of it replayed
(`ChunkReplay.ChunkReplays`, `ChunkReplay.ReplayContinues`), because `RomIndex.IndexWellBuilt` rules out
that a halting run ever fetches filler. `Boot.ProgramPublishes` joins these parts: for the rom that
`Elf2Rom.Elf2Rom` builds from the sections of a file, whenever the RISC-V program in them returns, the
emulator, started at the first instruction of the rom, halts after a stated number of steps, having
published just the words the program left in its output area; `Boot.ProgramExits` says the same of a
program that exits by a system call. `WholeRun.ProgramRecorded` adds the recording: for such a program,
whatever the number of threads, the traces are the chunks of that one run, and each of them replays.
Replaying a chunk with register tracing (`FullTrace.FillPartialTrace`) yields rows in which every access
is linked to the access to its register before it (`FullTrace.RowChains`) and the distances add up
(`FullTrace.ChunkTelescopes`).

Where the code does not meet what its documentation or the ISA says, the exact condition is proved:

- `divw` is wrong exactly when it divides -2^31 by -1 (`RiscvOps.DivwExactly`).
- `jalr` goes to the address the ISA prescribes exactly when that address is a multiple of 4
  (`Simulation.JalrAlignedTarget`, `Simulation.JalrSecondTarget`).
- A store-conditional agrees with the ISA exactly when the ISA raises an exception, the reservation is
  held, or rd is x0 and memory holds the low bytes of rs2 already (`Simulation.ScExactly`).
- Fetching serves every instruction exactly when no BIOS address is unaligned
  (`RomIndex.FetchesExactly`).
- Replay of a chunk succeeds exactly when the replaying memory has room for the precompile results
  (`ChunkReplay.ChunkReplays`).
- All counters of a rom lie inside the histogram exactly when no instruction is above the largest
  aligned program address (`RomHistogram.RomFitsExactly`); a two-part `jalr` at the end of a program is
  (`RomHistogram.JumpAtEndBeyond`).
- `read_required` differs from `read` exactly on 8-byte reads of the free-input word
  (`MemoryLemmas.ReadRequiredAgrees`). The comment on `is_full_aligned` speaks of 8 bytes; the code
  tests for 4, and so does the model.
- After start-up the memory holds a byte of a section exactly as the file has it unless zeros behind a
  later item reach it, in which case it is zero (`SectionData.SectionAfterBoot`); sections that start at
  multiples of 8 never do that to each other (`SectionData.AlignedNotPadded`).
- A word decodes to an instruction exactly when it is one of its encodings; the decoder ignores ordering
  bits and fence sets, takes 6-bit shift amounts in word shifts, and treats as `ecall` every system word
  with funct3 0 that is not `ebreak` (`DecoderExact.DecodesExactly`).
- Merging read sections would keep padding inside a section if the loop that pops it were needed; it
  never runs, because the end of the content never exceeds the end of the section
  (`MemObject.AddedOk`).

## Model

| member | source | states |
|---|---|---|
| Simulation.InstructionSimulated | core/src/riscv2zisk_context.rs:45-657 | compiler correctness: for every state, running the emitted micro-instructions of any instruction in scope ends in the registers, memory and pc that the ISA prescribes, whichever of rd, rs1, rs2 coincide, and panics exactly where the ISA raises an access fault |
| Boot.ProgramPublishes | core/src/elf2rom.rs:17-205 | everything together: if the RISC-V program of a file, started on a hart with its data, returns after n instructions, the emulator runs from the first instruction of the rom through the same instructions, publishes what the program left in the output area, and halts after exactly the stated number of steps |
| Boot.ProgramExits | core/src/riscv2zisk_context.rs:660-672 | the same for a program that asks to exit by a system call with 93 in x17, as long as the trap vector is as start-up left it |
| Boot.ProgramCodeIs | core/src/elf2rom.rs:43-73 | the code sections of every file covered hold one instruction per address |
| WholeRun.ProgramRecorded | emulator/src/emulator.rs:180-215 | for a file, an input and a program that ends: any threads together record the chunks of one run, of a length known from the RISC-V run; recording succeeds exactly when this length is below the step limit; and every chunk replays from its start state and its own words |
| Boot.ProgramReached | core/src/elf2rom.rs:17-205 | for any n, start-up followed by the micro-instructions of n RISC-V instructions leads to the state the ISA prescribes, or panics on an access fault |
| Boot.Boots | core/src/riscv2zisk_context.rs:1512-1583 | start-up stores all data of the file and the two control registers, calls the program with input, output and return address in x10, x11, x1, changes no other register or byte, and panics exactly when some of these words are outside all sections |
| Boot.ItemsRun | core/src/elf2rom.rs:106-113 | the data items are stored one after the other |
| Boot.OverlayAt | core/src/elf2rom.rs:106-113 | after start-up each address holds the byte of the last item there, or zero behind its end |
| Boot.OverlayElsewhere | core/src/elf2rom.rs:106-113 | all other bytes are as before |
| Boot.NotEnded | emulator/src/emu.rs:1157-1193 | a run that is not at an end instruction has not ended at any earlier step |
| Boot.InitialReady | emulator/src/emu.rs:53-69 | the memory the emulator starts with has room for everything that start-up stores, padding included |
| Elf2Rom.Elf2Rom | core/src/elf2rom.rs:17-205 | from any sections, builds a rom that fetches the micro-instructions of all their code, the stores of all their data, and the code that calls and ends the program; succeeds when all code decodes and there is some |
| Elf2Rom.AddSections | core/src/elf2rom.rs:43-104 | sorts sections into code, initialised RAM and read-only data without any of them disturbing another; fails exactly on undecodable code |
| Elf2Rom.AddRoItems | core/src/elf2rom.rs:106-113 | read-only data are stored as well, behind the RAM data |
| Elf2Rom.AddRoData | core/src/elf2rom.rs:82-102 | data that continue an earlier piece are appended to it, and start a piece of their own otherwise |
| SectionData.SectionInItems | core/src/elf2rom.rs:43-104 | of sections that share no address, every byte is in exactly one item, at its own address |
| SectionData.ItemsInSections | core/src/elf2rom.rs:43-104 | and every byte of an item is the byte some section has at that address |
| SectionData.RoGrown | core/src/elf2rom.rs:82-102 | adding a read-only section adds just its bytes, at their addresses |
| SectionData.ReadOnlyInRam | core/src/elf2rom.rs:70-80 | data in RAM become read-only data exactly when they are not writable |
| SectionData.SectionAfterBoot | core/src/elf2rom.rs:106-115 | after start-up the memory holds every byte of every section, except zero where the filling behind a later item reaches, and except the two control registers |
| SectionData.AlignedNotPadded | core/src/riscv2zisk_context.rs:1417-1438 | items that start at multiples of 8 do not reach into each other |
| SectionData.ProgramFinds | emulator/src/emu.rs:53-69 | in the emulator, a program that is called finds all bytes of all its sections |
| SectionData.BackToFrontPadded | core/src/riscv2zisk_context.rs:1417-1438 | two sections of which the second fills over the first |
| Elf2Rom.StageKept | core/src/elf2rom.rs:38-115 | instructions added in a free range leave all code, data and end instructions in place |
| Elf2Rom.ConvertVector | core/src/utils.rs:11-31 | word k is made of bytes 4k to 4k + 3, the first of them lowest |
| Elf2Rom.SectionIsRead | core/src/riscv2zisk_context.rs:1363-1384 | a section that holds the encodings of some instructions, lowest byte first, is read as just these instructions |
| Program.ProgramSimulated | core/src/riscv2zisk_context.rs:1363-1384 | every RISC-V run of n steps, for any n, is matched by an emulator run from the same pc, related at each instruction boundary |
| Simulation.AmoOpSimulated | core/src/riscv2zisk_context.rs:183-221 | load, combine, store: with rd apart from rs1 and rs2, memory gets the combined value and rd the loaded one |
| Simulation.AmoOpTempSimulated | core/src/riscv2zisk_context.rs:222-268 | the same when rd coincides with rs1 or rs2, through the temporary register at 0xa0000100, which the program never sees |
| Simulation.AmoSwapSimulated | core/src/riscv2zisk_context.rs:279-309 | an atomic swap exchanges memory and rs2 into rd |
| Simulation.AmoSwapTempSimulated | core/src/riscv2zisk_context.rs:310-344 | the same for coinciding registers, through the temporary register |
| Simulation.JalrAlignedTarget | core/src/riscv2zisk_context.rs:602-614 | masking rs1 before adding the offset gives the ISA's target if and only if that target is 4-aligned |
| Simulation.JalrSecondTarget | core/src/riscv2zisk_context.rs:615-639 | so does masking the sum |
| Simulation.JalrSplitSimulated | core/src/riscv2zisk_context.rs:615-639 | the two-part jump links to the address after the whole instruction and reaches the ISA's target |
| Simulation.ScExactly | core/src/riscv2zisk_context.rs:498-580 | where the ISA raises no exception, a store-conditional agrees with it if and only if the reservation is held, or there is no result register and memory holds the stored bytes already; where it raises one, always |
| Simulation.ImmediateOpSimulated | core/src/riscv2zisk_context.rs:441-476 | operations with an immediate, including those with x0 that are turned into a copy, compute the ISA's result |
| Simulation.BranchSimulated | core/src/riscv2zisk_context.rs:368-383 | a branch goes where the ISA says, whether its comparison is used directly or negated |
| Simulation.LoadSimulated | core/src/riscv2zisk_context.rs:403-414 | a load extends what memory holds, and panics exactly on an access fault |
| Simulation.StoreSimulated | core/src/riscv2zisk_context.rs:422-433 | a store leaves exactly the addressed bytes changed |
| RiscvOps.OperationCorrect | core/src/zisk_ops.rs:425-973 | every arithmetic, logic, shift, multiply and divide operation computes what the ISA prescribes, for all operands, if and only if it is not the overflowing divw |
| Words.BitAt | core/src/zisk_ops.rs:726-752 | bit k of and, or and xor depends on bit k of the operands as it should |
| Words.SignedValue | core/src/zisk_ops.rs:606-612 | the signed reading of a word is in range and the same modulo 2^64 |
| Words.TruncDivides | core/src/zisk_ops.rs:857-935 | signed quotient and remainder: the remainder is smaller than the divisor and has the sign of the dividend |
| RiscvOps.Comparisons | core/src/zisk_ops.rs:555-700 | comparisons set c and the flag alike, by the unsigned or the signed order |
| RiscvOps.ComparisonsW | core/src/zisk_ops.rs:560-720 | the word forms compare the low halves |
| RiscvOps.DivwExactly | core/src/zisk_ops.rs:890-896 | divw agrees with section 7.2 of the ISA except for -2^31 divided by -1 |
| RiscvOps.LoadCorrect | core/src/zisk_ops.rs:361-412 | copy and sign extension of a loaded value give the extension the ISA prescribes |
| RiscvOps.AmoCorrect | core/src/zisk_ops.rs:437-1098 | the 64-bit operations used for atomics agree with 32-bit ones on the bytes that are stored |
| Decoder.DecodeEncode | riscv/src/riscv_interpreter.rs:41-206 | decoding the ISA encoding of any instruction gives the instruction back |
| Decoder.DecodeOrdered | riscv/src/riscv_interpreter.rs:149-160 | whatever its ordering bits, an atomic instruction decodes to itself |
| Decoder.DecodeFence | riscv/src/riscv_interpreter.rs:183-193 | so does a fence with any predecessor and successor sets |
| DecoderExact.DecodesExactly | riscv/src/riscv_interpreter.rs:41-206 | a word decodes to an instruction if and only if it is one of its encodings |
| DecoderExact.CsrExactly | riscv/src/riscv_interpreter.rs:161-182 | which words are CSR accesses |
| Decoder.DecodedEncodable | riscv/src/riscv_interpreter.rs:19-37 | whatever decodes is an instruction that exists |
| Decoder.RiscvInterpreter | riscv/src/riscv_interpreter.rs:41-206 | a section decodes word by word; zero words are skipped, unknown ones panic |
| Decoder.Rvd.Init | riscv/src/riscv_rvd.rs:41-355 | the inserts fill the tree with exactly the opcodes of the table |
| Decoder.SignextBack | riscv/src/riscv_interpreter.rs:7-15 | sign extension inverts two's-complement encoding |
| Program.AddZiskCode | core/src/riscv2zisk_context.rs:1363-1384 | the instructions of a section end up at consecutive multiples of 4 and nothing outside the section's addresses changes; it succeeds if and only if every word decodes |
| Program.ConvertAll | core/src/riscv2zisk_context.rs:1372-1384 | translating one instruction never disturbs the code of another |
| Program.DecodesWhen | riscv/src/riscv_interpreter.rs:53-66 | a section decodes if and only if each of its words is zero or decodes |
| Program.ZeroDropped | riscv/src/riscv_interpreter.rs:55-59 | a zero word has no instruction, and later ones move up |
| Program.EncodedSection | riscv/src/riscv_interpreter.rs:53-59 | without zero words, word k of a section is instruction k |
| Program.SectionCompiled | core/src/riscv2zisk_context.rs:1363-1384 | a translated section whose instructions can be fetched is one the simulation theorem applies to |
| Transpiler.Riscv2ZiskContext.Convert | core/src/riscv2zisk_context.rs:45-156 | stores the micro-instructions of an instruction at the next address and advances by 4, or panics on a name without translation |
| Transpiler.Riscv2ZiskContext.CreateAtomicOp | core/src/riscv2zisk_context.rs:175-269 | emits three or four micro-instructions, by whether rd overlaps an operand |
| Transpiler.Riscv2ZiskContext.CreateAtomicSwap | core/src/riscv2zisk_context.rs:279-344 | emits two or three |
| Transpiler.Riscv2ZiskContext.JalrOp | core/src/riscv2zisk_context.rs:602-641 | emits one or two, by whether the offset is a multiple of 4 |
| Transpiler.Riscv2ZiskContext.ScOp | core/src/riscv2zisk_context.rs:498-580 | emits a store, and a result of 0 when rd is not x0 |
| Transpiler.ZiskInstBuilder.SrcA | core/src/zisk_inst_builder.rs:83-116 | register 0 becomes the immediate 0, registers outside 1 to 31 become memory, immediates are split in halves |
| Transpiler.ZiskInstBuilder.SrcB | core/src/zisk_inst_builder.rs:119-150 | the same for operand b, which can also be indirect |
| Transpiler.ZiskInstBuilder.Store | core/src/zisk_inst_builder.rs:153-175 | storing to register 0 leaves the instruction as it is |
| Transpiler.MicroOpsPlace | core/src/riscv2zisk_context.rs:45-657 | all micro-instructions of an instruction lie in its own four addresses, the first at its own |
| Transpiler.MicroOpsBuilt | core/src/riscv2zisk_context.rs:45-657 | each of them knows its address, has a function, ends a run only in place, and has registers 1 to 31 as register operands |
| MicroExec.ImmJoin | core/src/zisk_inst_builder.rs:68-80 | splitting an immediate and putting it together at run time loses nothing |
| MicroExec.Addresses | emulator/src/emu.rs:73-376 | where operands in memory are: fixed or relative to operand a, with the stack pointer added on request |
| MicroExec.StoreAddresses | emulator/src/emu.rs:756-822 | where results are stored |
| MicroExec.ExecDirect | emulator/src/emu.rs:1157-1193 | a micro-instruction with direct operands computes its operation and stores the result |
| RiscvMemory.ReadMatches | core/src/mem.rs:279-343 | loads of the hart and of the emulator fail together and find the same value |
| RiscvMemory.WriteMatches | core/src/mem.rs:532-579 | stores fail together and leave the same bytes |
| RiscvMemory.TempKept | core/src/riscv2zisk_context.rs:222-268 | program stores leave the temporary register alone |
| RomIndex.ZiskRom.BuildIndexes | core/src/elf2rom.rs:119-205 | succeeds when all addresses are in range and the BIOS is aligned; afterwards every instruction is kept in a place of its own, the address list is strictly increasing, and instructions point back to their position in it; the two maxima are the largest aligned addresses below and inside the program |
| RomIndex.FetchesExactly | core/src/zisk_rom.rs:125-162 | fetching returns every instruction of the map if and only if no BIOS address is unaligned |
| RomIndex.PlaceInjective | core/src/elf2rom.rs:183-196 | different addresses never share a slot |
| RomIndex.IndexWellBuilt | core/src/elf2rom.rs:168-176 | only default entries lack a function, and they loop on themselves; whatever sets the end flag stays where it is; register operands are registers 1 to 31 |
| RomIndex.SortPcsKeeps | core/src/elf2rom.rs:178-179 | sorting the addresses keeps them and makes them strictly increasing |
| RomIndex.ZiskRom.ScanKeys | core/src/elf2rom.rs:124-161 | finds the extreme addresses of each class in any order of visit, and rejects an address out of range |
| RomIndex.ZiskRom.FillVectors | core/src/elf2rom.rs:181-196 | puts every instruction in its place |
| RomIndex.ZiskRom.LinkList | core/src/elf2rom.rs:198-205 | labels instructions with their list position and moves none |
| Bios.ExitPublishes | core/src/riscv2zisk_context.rs:1584-1713 | after the program returns, every state reaches the end at ROM_EXIT after 166 steps, having published the 32 output words in order, with memory unchanged |
| Bios.TrapExits | core/src/riscv2zisk_context.rs:1715-1745 | the trap handler goes to the exit run if x17 is 93, and otherwise returns to the address in x1 |
| Bios.LoopExits | core/src/riscv2zisk_context.rs:1627-1700 | from any round of the output loop, exactly the remaining words are published |
| Bios.AddEntryExitJmp | core/src/riscv2zisk_context.rs:1512-1749 | adds these 16 instructions at consecutive addresses and changes nothing else |
| Bios.AddEndJmp | core/src/riscv2zisk_context.rs:1752-1781 | adds the first and the last instruction of every run, only at the very start |
| InitData.InitDataRuns | core/src/riscv2zisk_context.rs:1390-1438 | running the emitted instructions puts the data in memory, zero-fills to a multiple of 8 in length, changes no other byte and no register, ends at the next free address, and panics exactly when some word is outside all sections |
| InitData.AddZiskInitData | core/src/riscv2zisk_context.rs:1390-1438 | emits one store for every 8 bytes and one for the rest |
| InitData.TailWord | core/src/riscv2zisk_context.rs:1421-1425 | collecting the last bytes from the end gives their little-endian value |
| RecordReplay.RecordingInvisible | emulator/src/emu.rs:1566-1638 | a recording step succeeds exactly when the plain step does and reaches the same state up to b and the precompile buffers, and what it records depends on neither |
| RecordReplay.StepReplayed | emulator/src/emu.rs:1642-1752 | a recorded step is replayed from its own words, with the same pc, a, c, flag and registers, consuming all of them and nothing else; it fails exactly when a precompile stores outside the replaying memory |
| RecordReplay.ReadReplayed | emulator/src/emu.rs:180-243 | a logged operand is read back and exactly its words are consumed |
| RecordReplay.StoreReplayed | emulator/src/emu.rs:900-972 | replay skips exactly the old words that an unaligned store logged, although it stores nothing and recording overwrote b |
| RecordReplay.PrecompileReplayed | core/src/zisk_ops.rs:1323-1386 | a precompile fed from the log gets the input it had when recording |
| RecordReplay.FcallsReplayed | core/src/zisk_ops.rs:1555-1675 | free-input calls do nothing visible but copy b to c, so replay can skip them |
| RecordReplay.StepAgrees | emulator/src/emu.rs:1611-1638 | a step depends neither on b nor on left-over precompile input |
| Traces.RecordFollowsRun | emulator/src/emu.rs:1566-1638 | a recording run passes through the states of the plain run |
| Traces.ReplayRepeats | emulator/src/emu.rs:1642-1772 | replaying n recorded steps shows the same sequence of pc, a, c, flag, end and registers and consumes the recorded words exactly |
| ChunkReplay.ChunkReplays | emulator/src/emu.rs:1755-1804 | any chunk of a halting run is replayed from its start state and words alone: it shows the states of the run, uses up its log and ends in its last c, if and only if the memory has room for precompile results |
| ChunkReplay.ReplayContinues | emulator/src/emu.rs:1430-1455 | replaying a chunk ends in the start state of the next, only the last chunk has the end flag, and the steps of all chunks add up to the length of the run |
| ChunkReplay.ChunkLoopsAgree | emulator/src/emu.rs:1775-1804 | the loop that stops at the end flag replays every recorded chunk just as the counting loop |
| ChunkReplay.HaltingOperates | core/src/zisk_rom.rs:125-162 | a run that halts never fetches a default instruction |
| Chunks.OwnStep | emulator/src/emu.rs:1385-1405 | a recorded step extends the trace of the current block and no other |
| Chunks.OthersStep | emulator/src/emu.rs:1377-1384 | a step of another thread's block leaves all own traces complete |
| Chunks.OwnIndex | emulator/src/emu.rs:1377-1384 | the blocks of thread x are x, x + T, x + 2T, and so on |
| Chunks.OwnWithin | emulator/src/emu.rs:1375-1409 | among any T * K steps there is one of every thread, so the step limit bounds every run |
| Chunks.OwnChunksUnique | emulator/src/emu.rs:1357-1411 | the traces of a thread are determined by the run |
| ZiskEmulator.ComputeMinimalTraces | emulator/src/emulator.rs:180-215 | for every number of threads and block size, succeeds exactly when a single recording run would, and returns all blocks of the run in order |
| ZiskEmulator.ParallelEqualsSequential | emulator/src/emulator.rs:180-215 | the merged traces equal those of a single recording run |
| ZiskEmulator.MergeTraces | emulator/src/emulator.rs:205-214 | taking trace i / T of thread i % T never goes out of range and never takes a trace twice |
| ZiskEmulator.OwnersCover | emulator/src/emulator.rs:205-206 | every block has exactly one owner |
| ZiskEmulator.ThreadsComplete | emulator/src/emu.rs:1406-1408 | all threads stay below the step limit exactly when a single run does |
| ZiskEmulator.RunThread | emulator/src/emulator.rs:188-203 | one thread's run of its own |
| Emulator.Emu.ParRun | emulator/src/emu.rs:1357-1411 | records exactly the blocks of one thread; completes if and only if the program halts and no own step reaches the limit |
| Emulator.Emu.RunGenTrace | emulator/src/emu.rs:1414-1458 | records all blocks |
| Emulator.Emu.ParStep | emulator/src/emu.rs:1611-1638 | updates the object as the plain step on states |
| Emulator.Emu.ParStepMyBlock | emulator/src/emu.rs:1566-1607 | updates object and trace as the recording step |
| Emulator.Emu.StepEmuTrace | emulator/src/emu.rs:1642-1752 | updates the object as the replaying step |
| Emulator.Emu.ProcessEmuTrace | emulator/src/emu.rs:1755-1772 | replays as many steps as the trace has |
| Emulator.Emu.ProcessEmuTraces | emulator/src/emu.rs:1775-1804 | replays until the end flag or the number of steps |
| Emulator.Emu.SourceB | emulator/src/emu.rs:330-376 | operand b from register, memory, immediate or c |
| Emulator.Emu.StoreC | emulator/src/emu.rs:756-822 | the result goes to a register or to memory |
| Emulator.Emu.StoreCMemReadsGenerate | emulator/src/emu.rs:825-895 | an unaligned store also logs the words it modifies |
| Emulator.Emu.StoreCMemReadsConsume | emulator/src/emu.rs:900-972 | in replay memory is left alone and logged words are skipped |
| Precompiles.LoadsInput | core/src/zisk_ops.rs:1323-1386 | the input of each precompile is the block at b, or the pointers at b followed by the words at each of them |
| Precompiles.PrecompileEffect | core/src/zisk_ops.rs:1107-1500 | each precompile leaves the words of its result at its block or result pointers, in order, and changes no other byte |
| Precompiles.WordMapHas | core/src/zisk_ops.rs:1410-1415 | each of these words is read back where it was stored |
| Precompiles.CollectsParameters | core/src/zisk_ops.rs:1555-1594 | parameters are put behind those collected before, which stay |
| Precompiles.CallHandsOut | core/src/zisk_ops.rs:1602-1636 | a free-input call hands out its first result word and fails exactly on an error of the called function |
| Precompiles.GetHandsOut | core/src/zisk_ops.rs:1644-1675 | each further get hands out the next word, then 0, then fails |
| Precompiles.AllHandedOut | core/src/zisk_ops.rs:1602-1675 | after a call with n results, get number k gives word k for k below n and 0 for k = n |
| TraceWords.StepLogs | emulator/src/emu.rs:1566-1607 | a recording step logs operand a, operand b, the input of a precompile and the words a store is about to change, in this order |
| Emulator.Emu.OpcPrecompile | core/src/zisk_ops.rs:1107-1186 | a precompile reads its parameters and stores its results, or fails with either |
| Emulator.Emu.PrecompiledLoadData | core/src/zisk_ops.rs:1323-1386 | input comes from memory, is kept when recording, and comes from the log when replaying |
| Emulator.Emu.OpcFcallParam | core/src/zisk_ops.rs:1555-1594 | collects parameters, one or several at a time |
| Emulator.Emu.OpcFcall | core/src/zisk_ops.rs:1602-1636 | results are stored, the first of them as free input |
| Emulator.Emu.OpcFcallGet | core/src/zisk_ops.rs:1644-1675 | hands out one result after the other |
| MemoryLemmas.ReadRefinesBytes | core/src/mem.rs:279-343 | a read returns the little-endian value of the bytes, wherever they are, and fails exactly when no section holds them all |
| MemoryLemmas.WriteRefinesBytes | core/src/mem.rs:532-579 | a write replaces exactly the addressed bytes, although it searches the sections in the opposite order |
| MemoryLemmas.OneHome | core/src/mem.rs:279-343 | no access is in two sections, so the order of search does not matter |
| MemoryLemmas.LeAtOwnWrite | core/src/mem.rs:532-579 | a store is read back, truncated to its width |
| MemoryLemmas.LoggedWords | core/src/mem.rs:364-436 | what is logged for an unaligned access are the aligned words around it, the lower address first |
| MemoryLemmas.LeAtDigit | core/src/mem.rs:279-343 | byte k of a value in memory counts 256^k |
| MemoryLemmas.Reassembly | core/src/mem.rs:364-436 | the aligned words logged for an unaligned access give back its value, and 8 bytes always take two words |
| MemoryLemmas.ReadRequiredAgrees | core/src/mem.rs:364-514 | asking for the aligned words as well never changes the outcome, except for the free-input word |
| MemoryLemmas.AlignedInside | core/src/mem.rs:704-729 | the aligned words of an access stay inside any section with 8-aligned ends |
| MemObject.Mem.AddReadSection | core/src/mem.rs:178-238 | continues the first section that ends where the new piece starts, or adds one; panics exactly on a misaligned start |
| MemObject.Mem.AddWriteSection | core/src/mem.rs:241-273 | the write section is zeroed and set only once |
| MemObject.Mem.FindSection | core/src/mem.rs:301-316 | binary search finds the one section that holds an access, if any |
| MemObject.Mem.Read | core/src/mem.rs:279-343 | the write section first, then the read sections |
| MemObject.Mem.ReadRequired | core/src/mem.rs:364-514 | the value, and the aligned words around it |
| MemObject.Mem.WriteSilent | core/src/mem.rs:532-579 | the read sections first, then the write section |
| MemObject.AddedOk | core/src/mem.rs:196-238 | merging keeps ends 8-aligned with less than 8 bytes of padding, and never leaves padding between contents |
| MemObject.AddAllBytes | core/src/mem.rs:178-238 | after any sequence of additions, every content byte is the one that was added at its address |
| EmuContext.InitialValid | emulator/src/emu.rs:53-69 | for disjoint read-only data the sections come out sorted, disjoint and 8-aligned |
| EmuContext.InitialBytes | emulator/src/emu_context.rs:55-66 | the initial memory holds the input with its length and the read-only data byte for byte, and zeros in RAM |
| EmuContext.InputAt | emulator/src/emu_context.rs:57-63 | byte k of the input is at INPUT_ADDR + 16 + k |
| EmuContext.InputLength | emulator/src/emu_context.rs:57-63 | the eight bytes before it are its length, lowest byte first |
| EmuContext.CreateMemory | emulator/src/emu.rs:53-69 | builds this memory; panics exactly on an oversized input or misaligned data |
| RegTrace.EmuRegTrace.TraceRegAccess | emulator/src/emu_reg_trace.rs:45-65 | records the step of the preceding access to the register and, unless it is the first, the distance to it |
| RegTrace.MemStepOrder | emulator/src/emu_reg_trace.rs:6-8 | memory steps order accesses exactly as steps and slots do |
| RegTrace.MemStepBack | state-machines/mem/src/mem_helpers.rs:102-108 | step and slot can be read back from a memory step |
| RegTrace.LastStepPrecedes | emulator/src/emu_reg_trace.rs:53-64 | what is recorded is the latest earlier access to the same register, or the start |
| RegTrace.RangePositive | emulator/src/emu_reg_trace.rs:58-62 | every recorded distance but the first is at least 1 |
| RegTrace.RangesTelescope | emulator/src/emu_reg_trace.rs:45-65 | the distances of a register add up to its last access minus its first |
| RegTrace.RangeFits | emulator/src/emu_reg_trace.rs:61 | below 2^32 steps no distance is cut off |
| RegTrace.ChunksJoin | state-machines/main/src/main_sm.rs:268-308 | carrying last accesses over chunk boundaries, with 0 for an unused register, gives the chain of the whole run |
| RegTrace.FirstOfChunk | state-machines/main/src/main_sm.rs:279-300 | the first access to a register in a chunk gets the previous access it could not know |
| FullTrace.StepSliceFullTrace | emulator/src/emu.rs:1875-1921 | replays a step as the other replays do; its row shows for each used slot the preceding access to the register, counting the earlier slots of the step, and the distance to it, and the value the result register had |
| FullTrace.TraceInstruction | emulator/src/emu.rs:2117-2128 | the accesses of an instruction are traced in slot order, before it changes any register |
| FullTrace.FillPartialTrace | state-machines/main/src/main_sm.rs:212-258 | replays a chunk and returns one such row for each step, for the whole history of the chunk |
| FullTrace.RowChains | emulator/src/emu_reg_trace.rs:45-65 | in these rows every access names the latest earlier access to its register, or the start, and its exact distance, which is at least 1 but for a first use |
| FullTrace.ChunkTelescopes | emulator/src/emu_reg_trace.rs:45-65 | in these rows the distances of a register add up to its last access minus its first |
| FullTrace.StepInOrder | emulator/src/emu.rs:2117-2128 | the accesses of a step, in slot order, keep the whole history in order |
| Planner.Plan | common/src/planner_helpers.rs:51-94 | terminates with one scope for every `size` positions, each holding exactly its range, and never overwrites an entry of a scope |
| Planner.InExactlyOneScope | common/src/planner_helpers.rs:51-94 | every instruction of every chunk is in exactly one scope, the one of its position |
| Planner.ScopeSize | common/src/planner_helpers.rs:63-85 | every scope but the last collects exactly `size` instructions, and the last the rest |
| Planner.NotYet | common/src/planner_helpers.rs:70-73 | a chunk is inserted at most once in a scope |
| TraceLayout.ChunkFields | core/src/zisk_rom_2_asm.rs:4643-4939 | the place of every field in the words of a chunk |
| TraceLayout.ReaderRecovers | emulator-asm/src/main.c:1141-1223 | the reader recovers every sequence of chunks that was laid out |
| TraceLayout.TraceWriter.StartChunk | core/src/zisk_rom_2_asm.rs:4643-4807 | counts the chunk and writes its start state behind all earlier ones |
| TraceLayout.TraceWriter.PushMemRead | core/src/zisk_rom_2_asm.rs:4643-4807 | memory reads follow the chunk's header, whose last words are still open |
| TraceLayout.TraceWriter.EndChunk | core/src/zisk_rom_2_asm.rs:4809-4939 | writes last c, end flag, steps and size, and moves on to where the next chunk begins |
| TraceLayout.ReadMinimalTrace | emulator-asm/src/main.c:1141-1223 | walks the chunks by their sizes, and gives up on counts that are too high |
| RomHistogram.RomCountersDistinct | core/src/zisk_rom_2_asm.rs:5443-5454 | in every rom with an aligned BIOS all instructions have counters of their own, none of them a size header |
| RomHistogram.RomFitsExactly | emulator-asm/src/main.c:439-455 | all its counters lie inside the histogram if and only if no instruction is above the largest aligned program address |
| RomHistogram.JumpAtEndBeyond | emulator-asm/src/main.c:439-455 | a rom for which the indexes can be built and a counter lies beyond the end: its last instruction is a two-part jump |
| RomHistogram.CountersDistinct | core/src/zisk_rom_2_asm.rs:5443-5454 | different addresses have different counters, none of them a size header |
| RomHistogram.CounterFitsExactly | emulator-asm/src/main.c:439-455 | a counter lies in the histogram if and only if its address is at most the maximum the sizes come from |
| RomHistogram.HistogramTrace.Count | core/src/zisk_rom_2_asm.rs:579-585 | executing an instruction adds one to its multiplicity and leaves those of all others |
| RomHistogram.HistogramTrace.WriteSizes | emulator-asm/src/main.c:645-648 | the size headers overwrite no counter |
| RomHistogram.HistogramTrace.LogHistogram | emulator-asm/src/main.c:1225-1279 | the reader finds for every address of both tables how often it was executed, and gives up exactly on sizes that are too high |

## Left out

- CSR instructions and `ecall` as RISC-V semantics: `Decoder` tells CSR accesses apart and `Transpiler`
  emits the `ecall` instruction, but neither has a claim in `Simulation`; for CSR instructions of
  several parts the emitted jumps do not lead to the next part.
- Simulation.InstructionSimulated: takes as given that data accesses avoid the temporary register, that
  8-byte loads do not touch the free-input word, that a store-conditional holds its reservation and that
  divw does not overflow; `ScExactly` and `DivwExactly` say what happens otherwise. Exceptions for
  misaligned jumps and misaligned atomics, and `ebreak`, have no claim, as the code raises none.
- Program.ProgramSimulated: the code is fixed while it runs; instructions that overwrite code have no
  effect on fetching, in the model as in the emulator.
- Program.AddZiskCode: sections without CSR accesses.
- InitData.AddZiskInitData: only with force_aligned set, which is what all shown callers pass.
- EmuContext.InitialValid: read-only data that overlaps itself, the input or the RAM is not covered, and
  neither is a file with a read-only section of less than one word, for which the source adds an empty
  piece; `EmuContext.InitialBytes` and `EmuContext.InputAt` share this.
- RegTrace.EmuRegTrace.TraceRegAccess: a register outside 1 to 31 is excluded, as the debug assertion
  does; the histogram of distances (`update_step_range_check`) is not modelled.
- Emulator.Emu.ProcessEmuTraces: traces without steps, which no recording makes, are excluded; the loop
  would not stop for them.
- Emulator.Emu.ParRun: the step counter is unbounded where the source has 64 bits.
- TraceLayout.TraceWriter.StartChunk: the generated assembly is modelled by the memory it writes, in
  minimal-trace mode; growing the trace, shared memory and the modes other than this one and the
  histogram are not.
- Elf2Rom.Elf2Rom: the parsing of the file into sections. Covered are files whose code sections lie in
  the program area, are disjoint and have no CSR accesses, whose start-up code fits below the program,
  and whose sections stay clear of the end of the address space; the source checks none of this but
  the range of instruction addresses. That a rom without any aligned program instruction is refused is
  a claim of `RomIndex.ZiskRom.BuildIndexes`.
- Decoder.Rvd.Init: the tree below each opcode is a constant here, and the entries of CSR instructions
  are absent; `Decoder.DecodeEncode` compares the constants with the encodings of the ISA.
- Transpiler.Riscv2ZiskContext.Convert: without the translations of CSR instructions.
- Boot.InitialReady: read-only data as in `EmuContext.InitialValid`; the same holds for
  `ZiskEmulator.ComputeMinimalTraces`, `ZiskEmulator.RunThread` and `WholeRun.ProgramRecorded`.
- Hash, field and curve computations and the results of free-input calls are unknown functions of their
  inputs (`Prims`); the buffers with the output of precompiles, which nothing here reads, are absent.
- Machine words are bounded integers; additions wrap as in a release build, and debug assertions,
  statistics, UART output, callbacks and data-bus payloads are absent.
- Field-element trace rows, the bus devices, the executor, command line and logging.
- The sp register of the optional `sp` feature is kept but never written, as without that feature.
