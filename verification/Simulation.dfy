/** Running the micro-instructions of a RISC-V instruction does what the ISA prescribes. */
module Simulation {
  import opened Words
  import opened Wrappers
  import opened MemoryModel
  import opened ZiskInst
  import opened ZiskOps
  import opened Machine
  import opened Traces
  import opened Riscv
  import opened RiscvOps
  import opened RiscvMemory
  import opened Transpiler
  import opened MicroExec
  import opened MicroRuns

  // ---- the relation ----

  ghost predicate RegsMatch(x: Registers, regs: Words32) {
    forall k :: 1 <= k < 32 ==> x[k] == regs[k]
  }

  /** A hart and a machine state at an instruction boundary. */
  ghost predicate Related(h: Hart, s: State) {
    SameData(h, s) && h.pc == s.pc
  }

  ghost predicate SameData(h: Hart, s: State) {
    RegsMatch(h.x, s.regs) && SameMemory(h, s.mem)
  }

  lemma RegIs(h: Hart, s: State, k: RegIndex)
    requires RegsMatch(h.x, s.regs)
    ensures Reg(s, k) == h.X(k)
  {
  }

  lemma PutMatches(h: Hart, regs: Words32, rd: RegIndex, v: u64)
    requires RegsMatch(h.x, regs)
    ensures RegsMatch(h.SetX(rd, v).x, PutReg(regs, rd, v))
  {
  }

  // ---- whole instructions ----

  /** The instruction fetched at address k is i, up to fetch-index bookkeeping. */
  predicate FetchedAs(rom: Rom, k: u64, i: Inst) {
    GetInstruction(rom, k).Some? && SameInst(GetInstruction(rom, k).value, i)
  }

  ghost predicate Fetches(rom: Rom, insts: Insts) {
    forall k :: k in insts ==> FetchedAs(rom, k, insts[k])
  }

  lemma StepAs(p: Platform, s: State, i: Inst)
    requires FetchedAs(p.rom, s.pc, i)
    ensures Step(p, s) == Exec(p.prims, i, s)
  {
    hide GetInstruction, Exec, SameInst;
    var fetched := GetInstruction(p.rom, s.pc).value;
    StepIsExec(p, s, fetched);
    SameExec(p.prims, fetched, i, s);
  }

  /** How many micro-instructions an instruction takes. */
  function MicroSteps(i: RvInst): (n: nat)
    ensures 1 <= n <= 4
  {
    match i.op
    case Jalr => if i.imm % 4 == 0 then 1 else 2
    case Amo(f, _) => if f.SWAP? then (if Overlaps(i) then 3 else 2) else (if Overlaps(i) then 4 else 3)
    case Sc(_) => if i.rd > 0 then 2 else 1
    case _ => 1
  }

  /** The temporary register and the free-input word are not ordinary memory, the emulator never
      lets a store-conditional fail, and divw is wrong on overflow. */
  predicate Ordinary(h: Hart, i: RvInst) {
    && (DataWidth(i) > 0 ==> AvoidsTemp(DataAddr(h, i), DataWidth(i)))
    && (DataWidth(i) == 8 && DataAddr(h, i) == INPUT_ADDR ==> i.op.Store? || i.op.Sc?)
    && (i.op.Sc? ==> h.reservation == Some((DataAddr(h, i), DataWidth(i))))
    && (i.op.OpReg? ==> !DivwOverflow(i.op.f, h.X(i.rs1), h.X(i.rs2)))
  }

  /** r, the outcome of running the micro-instructions, is what the ISA prescribes. */
  ghost predicate Agrees(ends: Ends, r: Option<State>) {
    match ends
    case Next(h') => r.Some? && Related(h', r.value)
    case AccessFault => r.None?
    case _ => true
  }

  lemma RelatedPut(h: Hart, s: State, r: Option<State>, rd: RegIndex, v: u64, target: u64)
    requires SameData(h, s) && Reaches(r, PutReg(s.regs, rd, v), target, s.mem)
    ensures Related(h.SetX(rd, v).Goto(target), r.value)
  {
    hide SameMemory, RegsMatch;
    PutMatches(h, s.regs, rd, v);
    SameMemoryOf(h, h.SetX(rd, v).Goto(target), s.mem);
  }

  lemma SameMemoryOf(h: Hart, h': Hart, m: Memory)
    requires SameMemory(h, m) && h'.mem == h.mem && h'.regions == h.regions
    ensures SameMemory(h', m)
  {
    hide Agree, RegionsOf, Bytes, Accessible;
  }

  lemma RegisterOpSimulated(prims: Prims, i: RvInst, f: AluOp, h: Hart, s: State)
    requires Related(h, s) && !DivwOverflow(f, h.X(i.rs1), h.X(i.rs2))
    ensures Agrees(Ends.Next(h.SetX(i.rd, Result(f, h.X(i.rs1), h.X(i.rs2))).Next()), Exec(prims, RegisterOp(i, ZiskOp(f), s.pc), s))
  {
    hide Result, Alu, Exec, RegisterOp, DivwOverflow, SameMemory, RegsMatch, Wrap;
    RegIs(h, s, i.rs1);
    RegIs(h, s, i.rs2);
    OperationCorrect(f, h.X(i.rs1), h.X(i.rs2));
    RegisterOpRuns(prims, i, ZiskOp(f), s);
    RelatedPut(h, s, Exec(prims, RegisterOp(i, ZiskOp(f), s.pc), s), i.rd,
               Result(f, h.X(i.rs1), h.X(i.rs2)), Wrap(s.pc + 4));
  }

  /** With x0, these operations copy the immediate. */
  lemma CopyIsOp(f: AluOp, y: u64)
    requires CopyWithX0(f)
    ensures Result(f, 0, y) == y
  {
    Pow2Values();
    if !f.ADD? {
      BitOpZero(if f.XOR? then Xor else Or, BITS, y);
      XorIs(BITS, 0, y);
      OrIs(BITS, 0, y);
    }
    hide BitOp, Pow2, XorBits, OrBits;
  }

  lemma CopyAlu(x: u64, y: u64)
    ensures Alu(CopyB, x, y).0 == y
  {
  }

  lemma ImmediateOpSimulated(prims: Prims, i: RvInst, f: AluOp, h: Hart, s: State)
    requires Related(h, s) && HasImmForm(f)
    ensures var op := if CopyWithX0(f) && i.rs1 == 0 then CopyB else ZiskOp(f);
            Agrees(Ends.Next(h.SetX(i.rd, Result(f, h.X(i.rs1), Mod64(i.imm))).Next()),
                   Exec(prims, ImmediateOp(i, op, s.pc), s))
  {
    WrapIsMod(i.imm);
    hide Result, Exec, ImmediateOp, SameMemory, RegsMatch, Wrap, Mod64, Alu;
    var op := if CopyWithX0(f) && i.rs1 == 0 then CopyB else ZiskOp(f);
    RegIs(h, s, i.rs1);
    var x, y := h.X(i.rs1), Mod64(i.imm);
    if op == CopyB {
      CopyIsOp(f, y);
      CopyAlu(x, y);
    } else {
      OperationCorrect(f, x, y);
    }
    ImmediateOpRuns(prims, i, op, s);
    RelatedPut(h, s, Exec(prims, ImmediateOp(i, op, s.pc), s), i.rd, Result(f, x, y), Wrap(s.pc + 4));
  }

  lemma BranchMatches(cond: Cond, x: u64, y: u64)
    ensures Taken(cond, x, y) <==> Alu(BranchTest(cond).0, x, y).1 != BranchTest(cond).1
  {
  }

  lemma BranchSimulated(prims: Prims, i: RvInst, cond: Cond, h: Hart, s: State)
    requires Related(h, s)
    ensures var (op, neg) := BranchTest(cond);
            Agrees(if Taken(cond, h.X(i.rs1), h.X(i.rs2)) then JumpTo(h, Wrap(h.pc + i.imm)) else Ends.Next(h.Next()),
                   Exec(prims, BranchOp(i, op, neg, s.pc), s))
  {
    hide Exec, BranchOp, SameMemory, RegsMatch, Wrap, Taken;
    var (op, neg) := BranchTest(cond);
    RegIs(h, s, i.rs1);
    RegIs(h, s, i.rs2);
    BranchMatches(cond, h.X(i.rs1), h.X(i.rs2));
    BranchOpRuns(prims, i, op, neg, s);
    hide Alu;
    var r := Exec(prims, BranchOp(i, op, neg, s.pc), s);
    SameMemoryOf(h, h.Goto(r.value.pc), s.mem);
  }

  lemma LoadSimulated(prims: Prims, i: RvInst, load: LoadOp, w: nat, addr: u64, h: Hart, s: State)
    requires Related(h, s) && w == load.Width() && addr == Wrap(h.X(i.rs1) + i.imm)
    requires AvoidsTemp(addr, w) && !(addr == INPUT_ADDR && w == 8)
    ensures var r := Exec(prims, LoadInst(i, LoadZisk(load), w, s.pc), s);
            if Permits(h.regions, addr, w) then
              r.Some? && Related(h.SetX(i.rd, Extended(load, LeAt(h.mem, addr, w))).Next(), r.value)
            else r.None?
  {
    hide Exec, LoadInst, SameMemory, RegsMatch, Wrap, Permits, LeAt, Extended, AvoidsTemp, Read;
    RegIs(h, s, i.rs1);
    ReadMatches(h, s.mem, addr, w);
    FoundBound(h, addr, w);
    var v := Read(s.mem, addr, w);
    LoadInstRuns(prims, i, LoadZisk(load), w, s, v);
    if v.Some? {
      LoadCorrect(load, h.X(i.rs1), v.value);
      hide Alu;
      RelatedPut(h, s, Exec(prims, LoadInst(i, LoadZisk(load), w, s.pc), s), i.rd, Extended(load, v.value), Wrap(s.pc + 4));
    }
  }

  lemma StoreSimulated(prims: Prims, i: RvInst, w: nat, addr: u64, h: Hart, s: State)
    requires Related(h, s) && ValidWidth(w) && addr == Wrap(h.X(i.rs1) + i.imm)
    ensures var r := Exec(prims, StoreInst(i, w, s.pc), s);
            if Permits(h.regions, addr, w) then
              r.Some? && Related(h.(mem := h.mem + LeMap(addr, h.X(i.rs2), w)).Next(), r.value)
            else r.None?
  {
    hide Exec, StoreInst, RegsMatch, Wrap, Permits, Write, SameMemory;
    RegIs(h, s, i.rs1);
    RegIs(h, s, i.rs2);
    var val := h.X(i.rs2);
    WriteMatches(h, s.mem, addr, val, w);
    var m := Write(s.mem, addr, val, w);
    StoreInstRuns(prims, i, w, s, m);
    if m.Some? {
      var h1 := h.(mem := h.mem + LeMap(addr, val, w));
      hide LeMap;
      SameMemoryOf(h1, h1.Next(), m.value);
    }
  }

  lemma LuiSimulated(prims: Prims, i: RvInst, h: Hart, s: State)
    requires Related(h, s)
    ensures Agrees(Ends.Next(h.SetX(i.rd, Mod64(i.imm)).Next()), Exec(prims, LuiInst(i, s.pc), s))
  {
    WrapIsMod(i.imm);
    hide Exec, LuiInst, SameMemory, RegsMatch, Wrap, Mod64;
    LuiRuns(prims, i, s);
    RelatedPut(h, s, Exec(prims, LuiInst(i, s.pc), s), i.rd, Mod64(i.imm), Wrap(s.pc + 4));
  }

  lemma AuipcSimulated(prims: Prims, i: RvInst, h: Hart, s: State)
    requires Related(h, s)
    ensures Agrees(Ends.Next(h.SetX(i.rd, Wrap(h.pc + i.imm)).Next()), Exec(prims, AuipcInst(i, s.pc), s))
  {
    hide Exec, AuipcInst, SameMemory, RegsMatch, Wrap;
    AuipcRuns(prims, i, s);
    RelatedPut(h, s, Exec(prims, AuipcInst(i, s.pc), s), i.rd, Wrap(h.pc + i.imm), Wrap(s.pc + 4));
  }

  lemma JalSimulated(prims: Prims, i: RvInst, h: Hart, s: State)
    requires Related(h, s)
    ensures Agrees(JumpTo(h.SetX(i.rd, Wrap(h.pc + 4)), Wrap(h.pc + i.imm)), Exec(prims, JalInst(i, s.pc), s))
  {
    hide Exec, JalInst, SameMemory, RegsMatch, Wrap;
    JalRuns(prims, i, s);
    RelatedPut(h, s, Exec(prims, JalInst(i, s.pc), s), i.rd, Wrap(h.pc + 4), Wrap(h.pc + i.imm));
  }

  lemma NopSimulated(prims: Prims, h: Hart, s: State)
    requires Related(h, s)
    ensures Agrees(Ends.Next(h.Next()), Exec(prims, Nop(s.pc), s))
  {
    hide Exec, Nop, SameMemory, RegsMatch, Wrap;
    NopRuns(prims, s);
    SameMemoryOf(h, h.Next(), s.mem);
  }

  lemma WrapKeepsLow(y: int)
    ensures Wrap(y) % 4 == y % 4
    ensures Wrap(y - y % 4) == Wrap(y) - Wrap(y) % 4
  {
  }

  /** The code clears two low bits before adding the offset; the ISA clears one after adding it.
      They agree exactly on the targets that a hart without compressed instructions can jump to. */
  lemma JalrAlignedTarget(x: u64, imm: i32)
    requires imm % 4 == 0
    ensures var t := Wrap(x + imm); Wrap(Masked(x) + imm) == t - t % 2 <==> (t - t % 2) % 4 == 0
  {
    WrapKeepsLow(x + imm);
    hide Wrap;
    assert Masked(x) + imm == (x + imm) - (x + imm) % 4;
    JalrSecondTarget(Wrap(x + imm));
  }

  lemma JalrSecondTarget(t: u64)
    ensures Masked(t) == t - t % 2 <==> (t - t % 2) % 4 == 0
  {
  }

  lemma JalrTargetMatches(h: Hart, i: RvInst)
    requires JalrTarget(h, i) % 4 == 0
    ensures i.imm % 4 == 0 ==> Wrap(Masked(h.X(i.rs1)) + i.imm) == JalrTarget(h, i)
    ensures Masked(Wrap(h.X(i.rs1) + i.imm)) == JalrTarget(h, i)
  {
    if i.imm % 4 == 0 {
      JalrAlignedTarget(h.X(i.rs1), i.imm);
    }
    JalrSecondTarget(Wrap(h.X(i.rs1) + i.imm));
    hide Wrap, Masked;
  }

  lemma JalrAlignedSimulated(prims: Prims, i: RvInst, h: Hart, s: State)
    requires Related(h, s) && i.imm % 4 == 0
    ensures Agrees(JumpTo(h.SetX(i.rd, Wrap(h.pc + 4)), JalrTarget(h, i)), Exec(prims, JalrAligned(i, s.pc), s))
  {
    hide Exec, JalrAligned, SameMemory, RegsMatch, Wrap, Masked, JalrTarget;
    RegIs(h, s, i.rs1);
    JalrAlignedRuns(prims, i, s);
    if JalrTarget(h, i) % 4 == 0 {
      JalrTargetMatches(h, i);
      RelatedPut(h, s, Exec(prims, JalrAligned(i, s.pc), s), i.rd, Wrap(h.pc + 4), JalrTarget(h, i));
    }
  }

  // ---- instructions of several micro-instructions ----

  lemma RunOne(p: Platform, s: State)
    ensures Run(p, s, 1) == Step(p, s)
  {
    hide Step;
    assert Run(p, s, 0) == Some(s);
  }

  lemma RunMore(p: Platform, s: State, n: nat)
    ensures Step(p, s).Some? ==> Run(p, s, n + 1) == Run(p, Step(p, s).value, n)
    ensures Step(p, s).None? ==> Run(p, s, n + 1).None?
  {
    hide Step, Run;
    RunOne(p, s);
    RunAdd(p, s, 1, n);
  }

  lemma WrapPc(pc: u64, k: nat)
    requires pc + k < 0x1_0000_0000_0000_0000
    ensures Wrap(pc + k) == pc + k
  {
  }

  lemma JalrSplitSimulated(p: Platform, i: RvInst, h: Hart, s: State)
    requires Related(h, s) && s.pc + 4 < 0x1_0000_0000_0000_0000
    requires FetchedAs(p.rom, s.pc, JalrFirst(i, s.pc)) && FetchedAs(p.rom, s.pc + 1, JalrSecond(i, s.pc + 1))
    ensures Agrees(JumpTo(h.SetX(i.rd, Wrap(h.pc + 4)), JalrTarget(h, i)), Run(p, s, 2))
  {
    hide Exec, Run, JalrFirst, JalrSecond, SameMemory, RegsMatch, Masked, JalrTarget, Step, FetchedAs;
    WrapPc(s.pc, 1);
    WrapPc(s.pc, 4);
    hide Wrap;
    RegIs(h, s, i.rs1);
    StepAs(p, s, JalrFirst(i, s.pc));
    JalrFirstRuns(p.prims, i, s);
    var s1 := Step(p, s).value;
    StepAs(p, s1, JalrSecond(i, s1.pc));
    JalrSecondRuns(p.prims, i, s1);
    RunMore(p, s, 1);
    RunOne(p, s1);
    if JalrTarget(h, i) % 4 == 0 {
      JalrTargetMatches(h, i);
      RelatedPut(h, s1, Step(p, s1), i.rd, Wrap(h.pc + 4), JalrTarget(h, i));
    }
  }

  /** From s1, the emulator has gone on to target and stored what h1 shows; registers and the
      temporary register are as before. */
  ghost predicate HasStored(h1: Hart, s1: State, r: Option<State>, target: u64) {
    && r.Some? && r.value.regs == s1.regs && r.value.pc == target && SameMemory(h1, r.value.mem)
    && Read(r.value.mem, TEMP_ADDR, 8) == Read(s1.mem, TEMP_ADDR, 8)
  }

  /** The hart after storing v at addr. */
  function Put(h: Hart, addr: u64, v: nat, w: nat): Hart {
    h.(mem := h.mem + LeMap(addr, v, w))
  }

  lemma StoreRs2Simulated(p: Platform, i: RvInst, wide: bool, j: i32, h: Hart, s: State, w: nat)
    requires SameMemory(h, s.mem) && Reg(s, i.rs1) == h.X(i.rs1) && Reg(s, i.rs2) == h.X(i.rs2)
    requires w == Word(wide) && AvoidsTemp(h.X(i.rs1), w)
    requires FetchedAs(p.rom, s.pc, StoreRs2(i, wide, j, s.pc))
    ensures if Permits(h.regions, h.X(i.rs1), w) then
              HasStored(Put(h, h.X(i.rs1), h.X(i.rs2), w), s, Step(p, s), Wrap(s.pc + j))
            else Step(p, s).None?
  {
    hide Exec, StoreRs2, Wrap, Permits, Write, Read, SameMemory, Step, FetchedAs, LeMap, AvoidsTemp;
    StepAs(p, s, StoreRs2(i, wide, j, s.pc));
    WriteMatches(h, s.mem, h.X(i.rs1), h.X(i.rs2), w);
    var m := Write(s.mem, h.X(i.rs1), h.X(i.rs2), w);
    StoreRs2Runs(p.prims, i, wide, j, s, m);
    if m.Some? {
      TempAccessible(h, s.mem);
      TempKept(s.mem, h.X(i.rs1), h.X(i.rs2), w, 8);
    }
  }

  lemma TempAccessible(h: Hart, m: Memory)
    requires SameMemory(h, m)
    ensures Accessible(m, TEMP_ADDR, 8)
  {
  }

  lemma CombineStoreSimulated(p: Platform, i: RvInst, f: AmoOp, wide: bool, j: i32, h: Hart, s: State, found: nat, w: nat)
    requires SameMemory(h, s.mem) && Reg(s, i.rs1) == h.X(i.rs1) && Reg(s, i.rs2) == h.X(i.rs2)
    requires w == Word(wide) && AvoidsTemp(h.X(i.rs1), w) && Permits(h.regions, h.X(i.rs1), w)
    requires found < Pow256(Word(wide)) && s.c == Extended(LoadOf(wide), found) && s.pc + 1 < 0x1_0000_0000_0000_0000
    requires FetchedAs(p.rom, s.pc, AtomicCombine(i, AmoZisk(f, wide), s.pc))
    requires FetchedAs(p.rom, s.pc + 1, AtomicStore(i, wide, j, s.pc + 1))
    ensures HasStored(Put(h, h.X(i.rs1), AmoStored(f, wide, found, h.X(i.rs2)), w), s, Run(p, s, 2), Wrap(s.pc + 1 + j))
  {
    hide Exec, AtomicCombine, AtomicStore, Permits, Write, Read, SameMemory, Step, FetchedAs, LeMap, AvoidsTemp, Alu, Extended,
      AmoStored, Pow256, Run, LowBytes;
    WrapPc(s.pc, 1);
    hide Wrap;
    var addr, y := h.X(i.rs1), h.X(i.rs2);
    StepAs(p, s, AtomicCombine(i, AmoZisk(f, wide), s.pc));
    AtomicCombineRuns(p.prims, i, AmoZisk(f, wide), s);
    var s1 := Step(p, s).value;
    var c := s1.c;
    StepAs(p, s1, AtomicStore(i, wide, j, s1.pc));
    WriteMatches(h, s.mem, addr, c, w);
    var m := Write(s.mem, addr, c, w);
    AtomicStoreRuns(p.prims, i, wide, j, s1, m);
    AmoCorrect(f, wide, found, y);
    LeMapLow(addr, c, AmoStored(f, wide, found, y), w);
    TempAccessible(h, s.mem);
    TempKept(s.mem, addr, c, w, 8);
    RunMore(p, s, 1);
    RunOne(p, s1);
  }

  /** The loaded value is in c and on its way to rd. */
  ghost predicate HasLoaded(s: State, r: Option<State>, regs: Words32, c: u64) {
    r.Some? && r.value.regs == regs && r.value.c == c && r.value.pc == Wrap(s.pc + 1)
  }

  lemma LoadZiskIsAlu(load: LoadOp)
    ensures IsAlu(LoadZisk(load))
  {
  }

  lemma AtomicLoadSimulated(p: Platform, i: RvInst, wide: bool, h: Hart, s: State, w: nat)
    requires Related(h, s) && w == Word(wide) && AvoidsTemp(h.X(i.rs1), w) && !(h.X(i.rs1) == INPUT_ADDR && w == 8)
    requires FetchedAs(p.rom, s.pc, AtomicLoad(i, wide, i.rd, s.pc))
    ensures if Permits(h.regions, h.X(i.rs1), w) then
              var c := Extended(LoadOf(wide), LeAt(h.mem, h.X(i.rs1), w));
              HasLoaded(s, Step(p, s), PutReg(s.regs, i.rd, c), c) && Step(p, s).value.mem == s.mem
            else Step(p, s).None?
  {
    hide Exec, AtomicLoad, Wrap, Permits, Read, SameMemory, Step, FetchedAs, LeAt, AvoidsTemp, Extended, RegsMatch, LoadZisk;
    RegIs(h, s, i.rs1);
    StepAs(p, s, AtomicLoad(i, wide, i.rd, s.pc));
    ReadMatches(h, s.mem, h.X(i.rs1), w);
    FoundBound(h, h.X(i.rs1), w);
    LoadZiskIsAlu(LoadOf(wide));
    hide IsAlu;
    var op, v := LoadZisk(LoadOf(wide)), Read(s.mem, h.X(i.rs1), w);
    var c := if v.Some? then Alu(op, h.X(i.rs1), v.value).0 else 0;
    AtomicLoadRuns(p.prims, i, wide, op, i.rd, s, v, c);
    if v.Some? {
      LoadCorrect(LoadOf(wide), h.X(i.rs1), v.value);
      hide Alu;
    }
  }

  lemma AtomicLoadTempSimulated(p: Platform, i: RvInst, wide: bool, h: Hart, s: State, w: nat)
    requires Related(h, s) && w == Word(wide) && AvoidsTemp(h.X(i.rs1), w) && !(h.X(i.rs1) == INPUT_ADDR && w == 8)
    requires FetchedAs(p.rom, s.pc, AtomicLoad(i, wide, TEMP_REG, s.pc))
    ensures if Permits(h.regions, h.X(i.rs1), w) then
              var c := Extended(LoadOf(wide), LeAt(h.mem, h.X(i.rs1), w));
              HasLoaded(s, Step(p, s), s.regs, c) && SameMemory(h, Step(p, s).value.mem) &&
              Read(Step(p, s).value.mem, TEMP_ADDR, 8) == Some(c)
            else Step(p, s).None?
  {
    hide Exec, AtomicLoad, Wrap, Permits, Read, Write, SameMemory, Step, FetchedAs, LeAt, AvoidsTemp, Extended, RegsMatch,
      LoadZisk;
    RegIs(h, s, i.rs1);
    StepAs(p, s, AtomicLoad(i, wide, TEMP_REG, s.pc));
    ReadMatches(h, s.mem, h.X(i.rs1), w);
    FoundBound(h, h.X(i.rs1), w);
    LoadZiskIsAlu(LoadOf(wide));
    hide IsAlu;
    var op, v := LoadZisk(LoadOf(wide)), Read(s.mem, h.X(i.rs1), w);
    var c := if v.Some? then Alu(op, h.X(i.rs1), v.value).0 else 0;
    var m := Write(s.mem, TEMP_ADDR, c, 8);
    AtomicLoadTempRuns(p.prims, i, wide, op, s, v, c, m);
    if v.Some? {
      LoadCorrect(LoadOf(wide), h.X(i.rs1), v.value);
      hide Alu;
      WriteTemp(h, s.mem, c, 8);
    }
  }

  /** After the loaded value went to rd, the other two registers are still there. */
  lemma RegKept(h: Hart, s: State, s1: State, i: RvInst, c: u64)
    requires RegsMatch(h.x, s.regs) && !Overlaps(i) && s1.regs == PutReg(s.regs, i.rd, c)
    ensures Reg(s1, i.rs1) == h.X(i.rs1) && Reg(s1, i.rs2) == h.X(i.rs2)
  {
  }

  /** What an atomic instruction leaves behind, given the stored value. */
  function AmoDone(h: Hart, i: RvInst, w: nat, stored: nat, c: u64): Hart {
    Put(h, h.X(i.rs1), stored, w).SetX(i.rd, c).Next()
  }

  lemma DoneDirect(h: Hart, i: RvInst, w: nat, stored: nat, c: u64, s: State, s1: State, r: Option<State>)
    requires Related(h, s) && s1.regs == PutReg(s.regs, i.rd, c)
    requires HasStored(Put(h, h.X(i.rs1), stored, w), s1, r, Wrap(s.pc + 4))
    ensures Related(AmoDone(h, i, w, stored, c), r.value)
  {
    hide SameMemory, Wrap, RegsMatch, Read, LeMap;
    var h1 := Put(h, h.X(i.rs1), stored, w);
    PutMatches(h1, s.regs, i.rd, c);
    SameMemoryOf(h1, AmoDone(h, i, w, stored, c), r.value.mem);
  }

  lemma DoneFromTemp(p: Platform, h: Hart, i: RvInst, w: nat, stored: nat, c: u64, j: i32, s: State, t: State)
    requires Related(h, s) && t.regs == s.regs && SameMemory(Put(h, h.X(i.rs1), stored, w), t.mem)
    requires Read(t.mem, TEMP_ADDR, 8) == Some(c) && Wrap(t.pc + j) == Wrap(s.pc + 4)
    requires FetchedAs(p.rom, t.pc, CopyTemp(i, j, t.pc))
    ensures Step(p, t).Some? && Related(AmoDone(h, i, w, stored, c), Step(p, t).value)
  {
    hide SameMemory, Wrap, RegsMatch, Read, LeMap, Step, FetchedAs, CopyTemp, Exec;
    StepAs(p, t, CopyTemp(i, j, t.pc));
    CopyTempRuns(p.prims, i, j, t, c);
    RelatedPut(Put(h, h.X(i.rs1), stored, w), t, Step(p, t), i.rd, c, Wrap(s.pc + 4));
  }

  /** What both kinds of atomic instruction need to know about their operands. */
  ghost predicate AmoSetting(p: Platform, i: RvInst, wide: bool, h: Hart, s: State, w: nat) {
    && Related(h, s) && w == Word(wide) && AvoidsTemp(h.X(i.rs1), w) && !(h.X(i.rs1) == INPUT_ADDR && w == 8)
    && s.pc + 4 < 0x1_0000_0000_0000_0000
  }

  /** The hart after an atomic instruction, and the outcome of the run that simulates it. */
  ghost predicate AmoAgrees(i: RvInst, f: AmoOp, wide: bool, h: Hart, w: nat, r: Option<State>) {
    var addr := h.X(i.rs1);
    var found := LeAt(h.mem, addr, w);
    if Permits(h.regions, addr, w) then
      r.Some? &&
      Related(AmoDone(h, i, w, AmoStored(f, wide, found, h.X(i.rs2)), Extended(LoadOf(wide), found)), r.value)
    else r.None?
  }

  lemma AmoOpSimulated(p: Platform, i: RvInst, f: AmoOp, wide: bool, h: Hart, s: State, w: nat)
    requires AmoSetting(p, i, wide, h, s, w) && !Overlaps(i)
    requires FetchedAs(p.rom, s.pc, AtomicLoad(i, wide, i.rd, s.pc))
    requires FetchedAs(p.rom, s.pc + 1, AtomicCombine(i, AmoZisk(f, wide), s.pc + 1))
    requires FetchedAs(p.rom, s.pc + 2, AtomicStore(i, wide, 2, s.pc + 2))
    ensures AmoAgrees(i, f, wide, h, w, Run(p, s, 3))
  {
    hide SameMemory, RegsMatch, Read, LeMap, Step, FetchedAs, Run, AtomicLoad, AtomicCombine, AtomicStore, Permits, LeAt,
      AvoidsTemp, Extended, AmoStored, AmoDone, AmoZisk, HasStored, Overlaps;
    AtomicLoadSimulated(p, i, wide, h, s, w);
    RunMore(p, s, 2);
    WrapPc(s.pc, 1);
    hide Wrap;
    var addr := h.X(i.rs1);
    var found := LeAt(h.mem, addr, w);
    var c := Extended(LoadOf(wide), found);
    if Permits(h.regions, addr, w) {
      var s1 := Step(p, s).value;
      RegKept(h, s, s1, i, c);
      FoundBound(h, addr, w);
      CombineStoreSimulated(p, i, f, wide, 2, h, s1, found, w);
      DoneDirect(h, i, w, AmoStored(f, wide, found, h.X(i.rs2)), c, s, s1, Run(p, s1, 2));
      StoredSome(Put(h, addr, AmoStored(f, wide, found, h.X(i.rs2)), w), s1, Run(p, s1, 2), Wrap(s.pc + 4));
    }
  }

  lemma StoredSome(h1: Hart, s1: State, r: Option<State>, target: u64)
    requires HasStored(h1, s1, r, target)
    ensures r.Some? && r.value.regs == s1.regs && r.value.pc == target && SameMemory(h1, r.value.mem)
    ensures Read(r.value.mem, TEMP_ADDR, 8) == Read(s1.mem, TEMP_ADDR, 8)
  {
    hide SameMemory, Read;
  }

  lemma AmoOpTempSimulated(p: Platform, i: RvInst, f: AmoOp, wide: bool, h: Hart, s: State, w: nat)
    requires AmoSetting(p, i, wide, h, s, w)
    requires FetchedAs(p.rom, s.pc, AtomicLoad(i, wide, TEMP_REG, s.pc))
    requires FetchedAs(p.rom, s.pc + 1, AtomicCombine(i, AmoZisk(f, wide), s.pc + 1))
    requires FetchedAs(p.rom, s.pc + 2, AtomicStore(i, wide, 1, s.pc + 2))
    requires FetchedAs(p.rom, s.pc + 3, CopyTemp(i, 1, s.pc + 3))
    ensures AmoAgrees(i, f, wide, h, w, Run(p, s, 4))
  {
    hide SameMemory, RegsMatch, Read, LeMap, Step, FetchedAs, Run, AtomicLoad, AtomicCombine, AtomicStore, Permits, LeAt,
      AvoidsTemp, Extended, AmoStored, AmoDone, AmoZisk, HasStored, CopyTemp;
    AtomicLoadTempSimulated(p, i, wide, h, s, w);
    RunMore(p, s, 3);
    WrapPc(s.pc, 1);
    WrapPc(s.pc, 3);
    WrapPc(s.pc, 4);
    hide Wrap;
    var addr := h.X(i.rs1);
    var found := LeAt(h.mem, addr, w);
    var c := Extended(LoadOf(wide), found);
    if Permits(h.regions, addr, w) {
      var s1 := Step(p, s).value;
      RegIs(h, s, i.rs1);
      RegIs(h, s, i.rs2);
      FoundBound(h, addr, w);
      CombineStoreSimulated(p, i, f, wide, 1, h, s1, found, w);
      var stored := AmoStored(f, wide, found, h.X(i.rs2));
      StoredSome(Put(h, addr, stored, w), s1, Run(p, s1, 2), Wrap(s1.pc + 1 + 1));
      var t := Run(p, s1, 2).value;
      RunAdd(p, s1, 2, 1);
      RunOne(p, t);
      DoneFromTemp(p, h, i, w, stored, c, 1, s, t);
    }
  }

  lemma AmoSwapSimulated(p: Platform, i: RvInst, wide: bool, h: Hart, s: State, w: nat)
    requires AmoSetting(p, i, wide, h, s, w) && !Overlaps(i)
    requires FetchedAs(p.rom, s.pc, AtomicLoad(i, wide, i.rd, s.pc))
    requires FetchedAs(p.rom, s.pc + 1, StoreRs2(i, wide, 3, s.pc + 1))
    ensures AmoAgrees(i, SWAP, wide, h, w, Run(p, s, 2))
  {
    hide SameMemory, RegsMatch, Read, LeMap, Step, FetchedAs, Run, AtomicLoad, StoreRs2, Permits, LeAt,
      AvoidsTemp, Extended, AmoStored, AmoDone, HasStored, Overlaps;
    AtomicLoadSimulated(p, i, wide, h, s, w);
    RunMore(p, s, 1);
    WrapPc(s.pc, 1);
    hide Wrap;
    var addr := h.X(i.rs1);
    var found := LeAt(h.mem, addr, w);
    var c := Extended(LoadOf(wide), found);
    if Permits(h.regions, addr, w) {
      var s1 := Step(p, s).value;
      RegKept(h, s, s1, i, c);
      StoreRs2Simulated(p, i, wide, 3, h, s1, w);
      RunOne(p, s1);
      SwapStored(h, i, wide, found, w);
      var stored := AmoStored(SWAP, wide, found, h.X(i.rs2));
      DoneDirect(h, i, w, stored, c, s, s1, Run(p, s1, 1));
      StoredSome(Put(h, addr, stored, w), s1, Run(p, s1, 1), Wrap(s.pc + 4));
    }
  }

  /** A word-sized swap stores the low half of rs2. */
  lemma SwapStored(h: Hart, i: RvInst, wide: bool, found: nat, w: nat)
    requires w == Word(wide)
    ensures Put(h, h.X(i.rs1), h.X(i.rs2), w) == Put(h, h.X(i.rs1), AmoStored(SWAP, wide, found, h.X(i.rs2)), w)
  {
    hide LeMap, LowBytes;
    var y := h.X(i.rs2);
    if !wide {
      SameLowBytes(y, Mod32(y), w);
      LeMapLow(h.X(i.rs1), y, Mod32(y), w);
    }
  }

  lemma AmoSwapTempSimulated(p: Platform, i: RvInst, wide: bool, h: Hart, s: State, w: nat)
    requires AmoSetting(p, i, wide, h, s, w)
    requires FetchedAs(p.rom, s.pc, AtomicLoad(i, wide, TEMP_REG, s.pc))
    requires FetchedAs(p.rom, s.pc + 1, StoreRs2(i, wide, 1, s.pc + 1))
    requires FetchedAs(p.rom, s.pc + 2, CopyTemp(i, 2, s.pc + 2))
    ensures AmoAgrees(i, SWAP, wide, h, w, Run(p, s, 3))
  {
    hide SameMemory, RegsMatch, Read, LeMap, Step, FetchedAs, Run, AtomicLoad, StoreRs2, Permits, LeAt,
      AvoidsTemp, Extended, AmoStored, AmoDone, HasStored, CopyTemp;
    AtomicLoadTempSimulated(p, i, wide, h, s, w);
    RunMore(p, s, 2);
    WrapPc(s.pc, 1);
    WrapPc(s.pc, 2);
    WrapPc(s.pc, 4);
    hide Wrap;
    var addr := h.X(i.rs1);
    var found := LeAt(h.mem, addr, w);
    var c := Extended(LoadOf(wide), found);
    if Permits(h.regions, addr, w) {
      var s1 := Step(p, s).value;
      RegIs(h, s, i.rs1);
      RegIs(h, s, i.rs2);
      StoreRs2Simulated(p, i, wide, 1, h, s1, w);
      SwapStored(h, i, wide, found, w);
      var stored := AmoStored(SWAP, wide, found, h.X(i.rs2));
      StoredSome(Put(h, addr, stored, w), s1, Step(p, s1), Wrap(s1.pc + 1));
      var t := Step(p, s1).value;
      RunMore(p, s1, 1);
      RunOne(p, t);
      DoneFromTemp(p, h, i, w, stored, c, 2, s, t);
    }
  }

  /** The hart after a store-conditional that succeeds. */
  function ScDone(h: Hart, i: RvInst, w: nat): Hart {
    Put(h, h.X(i.rs1), h.X(i.rs2), w).SetX(i.rd, 0).Next().(reservation := None)
  }

  lemma ScSimulated(p: Platform, i: RvInst, wide: bool, h: Hart, s: State, w: nat)
    requires AmoSetting(p, i, wide, h, s, w) || (AvoidsTemp(h.X(i.rs1), w) && Related(h, s) && w == Word(wide) && s.pc + 4 < 0x1_0000_0000_0000_0000)
    requires FetchedAs(p.rom, s.pc, StoreRs2(i, wide, if i.rd > 0 then 1 else 4, s.pc))
    requires i.rd > 0 ==> FetchedAs(p.rom, s.pc + 1, ScResult(i, wide, s.pc + 1))
    ensures var r := Run(p, s, if i.rd > 0 then 2 else 1);
            if Permits(h.regions, h.X(i.rs1), w) then r.Some? && Related(ScDone(h, i, w), r.value) else r.None?
  {
    hide SameMemory, RegsMatch, Read, LeMap, Step, FetchedAs, Run, StoreRs2, Permits, AvoidsTemp, HasStored, ScResult, Exec;
    RegIs(h, s, i.rs1);
    RegIs(h, s, i.rs2);
    StoreRs2Simulated(p, i, wide, if i.rd > 0 then 1 else 4, h, s, w);
    RunOne(p, s);
    RunMore(p, s, 1);
    WrapPc(s.pc, 1);
    WrapPc(s.pc, 4);
    hide Wrap;
    if Permits(h.regions, h.X(i.rs1), w) {
      var h1 := Put(h, h.X(i.rs1), h.X(i.rs2), w);
      StoredSome(h1, s, Step(p, s), Wrap(s.pc + if i.rd > 0 then 1 else 4));
      var s1 := Step(p, s).value;
      if i.rd > 0 {
        RunOne(p, s1);
        StepAs(p, s1, ScResult(i, wide, s1.pc));
        ScResultRuns(p.prims, i, wide, s1);
        RelatedPut(h1, s1, Step(p, s1), i.rd, 0, Wrap(s.pc + 4));
        ReservationIgnored(h1.SetX(i.rd, 0).Next(), Step(p, s1).value);
      } else {
        SameMemoryOf(h1, ScDone(h, i, w), s1.mem);
      }
    }
  }

  /** The emulator has no reservation, so the relation ignores it. */
  lemma ReservationIgnored(h: Hart, s: State)
    requires Related(h, s)
    ensures forall x :: Related(h.(reservation := x), s)
  {
    forall x
      ensures Related(h.(reservation := x), s)
    {
      SameMemoryOf(h, h.(reservation := x), s.mem);
    }
  }

  // ---- the theorem ----

  lemma FetchesAt(rom: Rom, insts: Insts, k: u64)
    requires Fetches(rom, insts) && k in insts
    ensures FetchedAs(rom, k, insts[k])
  {
    hide FetchedAs;
  }

  lemma AtomicSimulated(p: Platform, i: RvInst, f: AmoOp, wide: bool, h: Hart, s: State)
    requires i.op == Amo(f, wide) && Related(h, s) && s.pc + 4 < 0x1_0000_0000_0000_0000
    requires Fetches(p.rom, if f.SWAP? then AtomicSwap(i, wide, s.pc) else AtomicOp(i, f, wide, s.pc))
    requires AvoidsTemp(h.X(i.rs1), Word(wide)) && !(h.X(i.rs1) == INPUT_ADDR && Word(wide) == 8)
    ensures AmoAgrees(i, f, wide, h, Word(wide), Run(p, s, MicroSteps(i)))
  {
    hide Related, FetchedAs, AtomicLoad, AtomicCombine, AtomicStore, CopyTemp, StoreRs2, Run, AmoAgrees, AvoidsTemp, Overlaps, AmoZisk;
    var w := Word(wide);
    var pc := s.pc;
    if f.SWAP? {
      var insts := AtomicSwap(i, wide, pc);
      FetchesAt(p.rom, insts, pc);
      FetchesAt(p.rom, insts, pc + 1);
      if Overlaps(i) {
        FetchesAt(p.rom, insts, pc + 2);
        AmoSwapTempSimulated(p, i, wide, h, s, w);
      } else {
        AmoSwapSimulated(p, i, wide, h, s, w);
      }
    } else {
      var insts := AtomicOp(i, f, wide, pc);
      FetchesAt(p.rom, insts, pc);
      FetchesAt(p.rom, insts, pc + 1);
      FetchesAt(p.rom, insts, pc + 2);
      if Overlaps(i) {
        FetchesAt(p.rom, insts, pc + 3);
        AmoOpTempSimulated(p, i, f, wide, h, s, w);
      } else {
        AmoOpSimulated(p, i, f, wide, h, s, w);
      }
    }
  }

  lemma OneStep(p: Platform, s: State, z: Inst)
    requires FetchedAs(p.rom, s.pc, z)
    ensures Run(p, s, 1) == Exec(p.prims, z, s)
  {
    hide Exec, Run, FetchedAs;
    StepAs(p, s, z);
    RunOne(p, s);
  }

  lemma LoadStep(p: Platform, i: RvInst, load: LoadOp, h: Hart, s: State)
    requires i.op == Load(load) && Related(h, s) && Ordinary(h, i)
    requires FetchedAs(p.rom, s.pc, LoadInst(i, LoadZisk(load), load.Width(), s.pc))
    ensures Agrees(Execute(h, i), Run(p, s, 1))
  {
    hide Related, FetchedAs, LoadInst, Run, Exec, Permits, AvoidsTemp, LeAt, Extended, Wrap;
    var w, addr := load.Width(), Wrap(h.X(i.rs1) + i.imm);
    LoadSimulated(p.prims, i, load, w, addr, h, s);
    OneStep(p, s, LoadInst(i, LoadZisk(load), w, s.pc));
  }

  lemma LrStep(p: Platform, i: RvInst, wide: bool, h: Hart, s: State)
    requires i.op == Lr(wide) && i.imm == 0 && Related(h, s) && Ordinary(h, i)
    requires FetchedAs(p.rom, s.pc, LoadInst(i, LoadZisk(LoadOf(wide)), Word(wide), s.pc))
    ensures Agrees(Execute(h, i), Run(p, s, 1))
  {
    WrapSmall(h.X(i.rs1));
    hide Related, FetchedAs, LoadInst, Run, Exec, Permits, AvoidsTemp, LeAt, Extended, Wrap;
    var w, addr, load := Word(wide), h.X(i.rs1), LoadOf(wide);
    LoadSimulated(p.prims, i, load, w, addr, h, s);
    OneStep(p, s, LoadInst(i, LoadZisk(load), w, s.pc));
    if Permits(h.regions, addr, w) {
      ReservationIgnored(h.SetX(i.rd, Extended(load, LeAt(h.mem, addr, w))).Next(), Run(p, s, 1).value);
    }
  }

  lemma StoreStep(p: Platform, i: RvInst, store: StoreOp, h: Hart, s: State)
    requires i.op == Store(store) && Related(h, s)
    requires FetchedAs(p.rom, s.pc, StoreInst(i, store.Width(), s.pc))
    ensures Agrees(Execute(h, i), Run(p, s, 1))
  {
    hide Related, FetchedAs, StoreInst, Run, Exec, Permits, LeMap, Wrap;
    var w, addr := store.Width(), Wrap(h.X(i.rs1) + i.imm);
    StoreSimulated(p.prims, i, w, addr, h, s);
    OneStep(p, s, StoreInst(i, w, s.pc));
  }

  lemma ScStep(p: Platform, i: RvInst, wide: bool, h: Hart, s: State)
    requires i.op == Sc(wide) && Related(h, s) && Ordinary(h, i) && s.pc + 4 < 0x1_0000_0000_0000_0000
    requires Fetches(p.rom, StoreConditional(i, wide, s.pc))
    ensures Agrees(Execute(h, i), Run(p, s, MicroSteps(i)))
  {
    hide Related, FetchedAs, Run, Permits, LeMap, AvoidsTemp, StoreRs2, ScResult;
    var insts := StoreConditional(i, wide, s.pc);
    FetchesAt(p.rom, insts, s.pc);
    if i.rd > 0 {
      FetchesAt(p.rom, insts, s.pc + 1);
    }
    ScSimulated(p, i, wide, h, s, Word(wide));
  }

  lemma AmoStep(p: Platform, i: RvInst, f: AmoOp, wide: bool, h: Hart, s: State)
    requires i.op == Amo(f, wide) && Related(h, s) && Ordinary(h, i) && s.pc + 4 < 0x1_0000_0000_0000_0000
    requires Fetches(p.rom, if f.SWAP? then AtomicSwap(i, wide, s.pc) else AtomicOp(i, f, wide, s.pc))
    ensures Agrees(Execute(h, i), Run(p, s, MicroSteps(i)))
  {
    hide Related, Fetches, Run, Permits, LeMap, LeAt, AvoidsTemp, AtomicSwap, AtomicOp, Extended, AmoStored;
    AtomicSimulated(p, i, f, wide, h, s);
  }

  /** Every micro-instruction of i at address s is there to be fetched. */
  ghost predicate Emitted(rom: Rom, i: RvInst, pc: u64) {
    && pc + 4 < 0x1_0000_0000_0000_0000 && MicroOps(i, pc).Some?
    && Fetches(rom, MicroOps(i, pc).value)
  }

  lemma EmittedAt(rom: Rom, i: RvInst, pc: u64, z: Inst)
    requires Emitted(rom, i, pc) && MicroOps(i, pc) == Some(map[pc := z])
    ensures FetchedAs(rom, pc, z)
  {
    hide FetchedAs, MicroOps;
    FetchesAt(rom, map[pc := z], pc);
  }

  /** The form of the emitted code, read off the mnemonic. */
  lemma AccessSimulated(p: Platform, i: RvInst, h: Hart, s: State)
    requires Encodable(i) && Related(h, s) && Ordinary(h, i) && DataWidth(i) > 0 && Emitted(p.rom, i, s.pc)
    ensures Agrees(Execute(h, i), Run(p, s, MicroSteps(i)))
  {
    hide Related, Ordinary, Execute, Run, Fetches, FetchedAs, LoadInst, StoreInst, StoreConditional, AtomicOp, AtomicSwap, Agrees;
    var pc := s.pc;
    WidthsAgree();
    match i.op
    case Load(load) =>
      EmittedAt(p.rom, i, pc, LoadInst(i, LoadZisk(load), ZiskLoadWidth(load), pc));
      LoadStep(p, i, load, h, s);
    case Store(store) =>
      EmittedAt(p.rom, i, pc, StoreInst(i, ZiskStoreWidth(store), pc));
      StoreStep(p, i, store, h, s);
    case Lr(wide) =>
      EmittedAt(p.rom, i, pc, LoadInst(i, LoadZisk(LoadOf(wide)), ZiskAtomicWidth(wide), pc));
      LrStep(p, i, wide, h, s);
    case Sc(wide) => ScStep(p, i, wide, h, s);
    case Amo(f, wide) => AmoStep(p, i, f, wide, h, s);
  }

  /** Instructions that only compute or jump. */
  lemma ComputeSimulated(p: Platform, i: RvInst, h: Hart, s: State)
    requires Related(h, s) && Ordinary(h, i) && DataWidth(i) == 0 && !i.op.Jalr? && Emitted(p.rom, i, s.pc)
    ensures Agrees(Execute(h, i), Run(p, s, MicroSteps(i)))
  {
    hide Related, Run, Fetches, FetchedAs, RegisterOp, ImmediateOp, BranchOp, LuiInst, AuipcInst, JalInst, Nop, Agrees,
      Result, Taken, Wrap, Mod64, JumpTo, DivwOverflow, BranchTest, Exec, EcallInst;
    var pc := s.pc;
    match i.op
    case OpReg(f) =>
      EmittedAt(p.rom, i, pc, RegisterOp(i, ZiskOp(f), pc));
      OneStep(p, s, RegisterOp(i, ZiskOp(f), pc));
      RegisterOpSimulated(p.prims, i, f, h, s);
    case OpImm(f) =>
      var op := if CopyWithX0(f) && i.rs1 == 0 then CopyB else ZiskOp(f);
      EmittedAt(p.rom, i, pc, ImmediateOp(i, op, pc));
      OneStep(p, s, ImmediateOp(i, op, pc));
      ImmediateOpSimulated(p.prims, i, f, h, s);
    case Branch(cond) =>
      var (op, neg) := BranchTest(cond);
      EmittedAt(p.rom, i, pc, BranchOp(i, op, neg, pc));
      OneStep(p, s, BranchOp(i, op, neg, pc));
      BranchSimulated(p.prims, i, cond, h, s);
    case Lui =>
      EmittedAt(p.rom, i, pc, LuiInst(i, pc));
      OneStep(p, s, LuiInst(i, pc));
      LuiSimulated(p.prims, i, h, s);
    case Auipc =>
      EmittedAt(p.rom, i, pc, AuipcInst(i, pc));
      OneStep(p, s, AuipcInst(i, pc));
      AuipcSimulated(p.prims, i, h, s);
    case Jal =>
      EmittedAt(p.rom, i, pc, JalInst(i, pc));
      OneStep(p, s, JalInst(i, pc));
      JalSimulated(p.prims, i, h, s);
    case Fence =>
      EmittedAt(p.rom, i, pc, Nop(pc));
      OneStep(p, s, Nop(pc));
      NopSimulated(p.prims, h, s);
    case FenceI =>
      EmittedAt(p.rom, i, pc, Nop(pc));
      OneStep(p, s, Nop(pc));
      NopSimulated(p.prims, h, s);
    case Ecall => NoClaim(Run(p, s, 1));
    case Ebreak => NoClaim(Run(p, s, 1));
  }

  lemma NoClaim(r: Option<State>)
    ensures Agrees(Environment, r)
  {
  }

  lemma JalrSimulated(p: Platform, i: RvInst, h: Hart, s: State)
    requires Related(h, s) && i.op.Jalr? && Emitted(p.rom, i, s.pc)
    ensures Agrees(Execute(h, i), Run(p, s, MicroSteps(i)))
  {
    hide Related, Run, FetchedAs, JalrAligned, JalrFirst, JalrSecond, Agrees, Wrap, JumpTo, JalrTarget, Exec;
    var pc := s.pc;
    if i.imm % 4 == 0 {
      EmittedAt(p.rom, i, pc, JalrAligned(i, pc));
      OneStep(p, s, JalrAligned(i, pc));
      JalrAlignedSimulated(p.prims, i, h, s);
    } else {
      var insts := map[pc := JalrFirst(i, pc), pc + 1 := JalrSecond(i, pc + 1)];
      FetchesAt(p.rom, insts, pc);
      FetchesAt(p.rom, insts, pc + 1);
      JalrSplitSimulated(p, i, h, s);
    }
  }

  /** Compiler correctness, one instruction. For every state, running the micro-instructions of an
      instruction ends in a state related to the one the ISA prescribes, whichever of rd, rs1 and
      rs2 coincide; and it panics when the ISA raises an access fault. */
  lemma InstructionSimulated(p: Platform, i: RvInst, h: Hart, s: State)
    requires Encodable(i) && Related(h, s) && Ordinary(h, i) && Emitted(p.rom, i, s.pc)
    ensures Agrees(Execute(h, i), Run(p, s, MicroSteps(i)))
  {
    hide Related, Run, Agrees, Execute, Emitted, Ordinary;
    if i.op.Jalr? {
      JalrSimulated(p, i, h, s);
    } else if DataWidth(i) > 0 {
      AccessSimulated(p, i, h, s);
    } else {
      ComputeSimulated(p, i, h, s);
    }
  }

  /** The hart after a store-conditional that failed. */
  function ScFailed(h: Hart, i: RvInst): Hart {
    h.SetX(i.rd, 1).Next().(reservation := None)
  }

  predicate Reserved(h: Hart, i: RvInst) {
    h.reservation == Some((DataAddr(h, i), DataWidth(i)))
  }

  /** The store would not be noticed: memory holds the low bytes of rs2 already. */
  predicate StoresSame(h: Hart, i: RvInst) {
    Found(h, i) == LowBytes(h.X(i.rs2), DataWidth(i))
  }

  /** A failed store-conditional looks like the store that the emulator makes exactly when there is no
      result register and the store would not be noticed. */
  lemma FailureSeen(i: RvInst, wide: bool, h: Hart, s: State, r: State)
    requires i.op == Sc(wide) && Related(h, s) && Related(ScDone(h, i, Word(wide)), r)
    requires AvoidsTemp(DataAddr(h, i), Word(wide)) && Permits(h.regions, DataAddr(h, i), Word(wide))
    ensures Related(ScFailed(h, i), r) <==> i.rd == 0 && StoresSame(h, i)
  {
    hide Permits, LeMap, LeAt, AvoidsTemp, LowBytes, SameMemory;
    var put := Put(h, h.X(i.rs1), h.X(i.rs2), Word(wide));
    SameMemoryOf(ScDone(h, i, Word(wide)), put, r.mem);
    InvisibleStore(h, s.mem, r.mem, h.X(i.rs1), h.X(i.rs2), Word(wide));
    if i.rd > 0 {
      ResultSeen(ScDone(h, i, Word(wide)), r, i.rd);
      if Related(ScFailed(h, i), r) {
        ResultSeen(ScFailed(h, i), r, i.rd);
      }
    } else if SameMemory(h, r.mem) {
      SameMemoryOf(h, ScFailed(h, i), r.mem);
    } else if SameMemory(ScFailed(h, i), r.mem) {
      SameMemoryOf(ScFailed(h, i), h, r.mem);
    }
  }

  /** Store-conditional, exactly. The emulator never lets it fail, so, where the ISA raises no exception,
      it agrees with the ISA if and only if the reservation is still held, or there is neither a result
      register nor a noticeable store. */
  lemma ScExactly(p: Platform, i: RvInst, wide: bool, h: Hart, s: State)
    requires i.op == Sc(wide) && Related(h, s) && Emitted(p.rom, i, s.pc)
    requires AvoidsTemp(DataAddr(h, i), DataWidth(i))
    ensures Execute(h, i).Next? ==>
              (Agrees(Execute(h, i), Run(p, s, MicroSteps(i))) <==> Reserved(h, i) || (i.rd == 0 && StoresSame(h, i)))
    ensures !Execute(h, i).Next? ==> Agrees(Execute(h, i), Run(p, s, MicroSteps(i)))
  {
    hide Related, FetchedAs, Run, Permits, LeMap, AvoidsTemp, StoreRs2, ScResult, StoresSame;
    var insts := StoreConditional(i, wide, s.pc);
    FetchesAt(p.rom, insts, s.pc);
    if i.rd > 0 {
      FetchesAt(p.rom, insts, s.pc + 1);
    }
    ScSimulated(p, i, wide, h, s, Word(wide));
    if Execute(h, i).Next? && !Reserved(h, i) {
      FailureSeen(i, wide, h, s, Run(p, s, MicroSteps(i)).value);
    }
  }

  lemma ResultSeen(h: Hart, s: State, rd: RegIndex)
    requires Related(h, s) && rd > 0
    ensures s.regs[rd] == h.x[rd]
  {
  }
}
