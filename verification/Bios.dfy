/** The start-up and exit code around a program: calling it, publishing its output, ending the run. */
module Bios {
  import opened Words
  import opened Wrappers
  import opened MemoryModel
  import opened ZiskInst
  import opened ZiskOps
  import opened Machine
  import opened Traces
  import opened Chunks
  import opened Transpiler
  import opened MicroExec
  import opened MicroRuns
  import opened Simulation

  const ARCH_ID_ZISK: u64 := 0xFFFEEEE
  const CAUSE_EXIT: u64 := 93

  // ---- the instructions ----

  function CopyTo(z: Inst, v: u64): Inst {
    z.SrcA(AImm, 0, false).SrcB(BImm, v, false).WithOp(CopyB)
  }

  function SetReg(z: Inst, v: u64, reg: nat): Inst
    requires reg < 32
  {
    CopyTo(z, v).StoreTo(TReg, reg, false, false).J(0, 4)
  }

  /** Instruction number k of the section that starts at base, for a program that starts at addr. */
  function BiosInst(base: u64, addr: u64, k: nat): Inst
    requires base + 0x40 < 0x1_0000_0000_0000_0000 && k < 16
  {
    var z := NewInst(base + 4 * k);
    if k == 0 then CopyTo(z, ARCH_ID_ZISK).StoreTo(TMem, CSR_ADDR + 0xF12, false, false).J(4, 4)
    else if k == 1 then CopyTo(z, base + 0x38).StoreTo(TMem, MTVEC, false, false).J(4, 4)
    else if k == 2 then SetReg(z, INPUT_ADDR, 10)
    else if k == 3 then SetReg(z, OUTPUT_ADDR, 11)
    else if k == 4 then CopyTo(z, addr).WithSetPc().StoreRa(TReg, 1, false).J(0, 4)
    else if k == 5 then SetReg(z.IndWidth(4), 32, 11)
    else if k == 6 then SetReg(z, 0, 12)
    else if k == 7 then SetReg(z, OUTPUT_ADDR, 13)
    else if k == 8 then
      z.SrcA(AReg, 11, false).SrcB(BReg, 12, false).WithOp(Op.Eq).StoreTo(TNone, 0, false, false).J(20, 4)
    else if k == 9 then
      z.SrcA(AReg, 13, false).SrcB(BInd, 0, false).IndWidth(8).WithOp(CopyB).StoreTo(TNone, 0, false, false).J(0, 4)
    else if k == 10 then
      z.SrcA(AReg, 12, false).SrcB(BLastC, 0, false).WithOp(PubOut).StoreTo(TNone, 0, false, false).J(0, 4)
    else if k == 11 then
      z.SrcA(AReg, 13, false).SrcB(BImm, 8, false).WithOp(Add).StoreTo(TReg, 13, false, false).J(0, 4)
    else if k == 12 then
      z.SrcA(AReg, 12, false).SrcB(BImm, 1, false).WithOp(Add).StoreTo(TReg, 12, false, false).J(4, -16)
    else if k == 13 then CopyTo(z, ROM_EXIT).WithSetPc().J(0, 0)
    else if k == 14 then z.SrcA(AReg, 17, false).SrcB(BImm, CAUSE_EXIT, false).WithOp(Op.Eq).J(-36, 4)
    else z.SrcA(AImm, 0, false).SrcB(BReg, 1, false).WithOp(CopyB).WithSetPc().J(0, 4)
  }

  /** The very first instruction, which jumps over the last one. */
  function JumpOverEnd(): Inst {
    CopyTo(NewInst(ROM_ENTRY), 0).J(8, 8)
  }

  /** The last instruction of every run. */
  function EndInst(): Inst {
    CopyTo(NewInst(ROM_EXIT), 0).WithEnd().J(0, 0)
  }

  ghost predicate FetchesBios(rom: Rom, base: u64, addr: u64)
    requires base + 0x40 < 0x1_0000_0000_0000_0000
  {
    && (forall k :: 0 <= k < 16 ==> FetchedAs(rom, base + 4 * k, BiosInst(base, addr, k)))
    && FetchedAs(rom, ROM_EXIT, EndInst())
  }

  // ---- running single instructions ----

  /** After an instruction with operands a and b that puts c in register rd. */
  function After(s: State, i: Inst, a: u64, b: u64, rd: nat): State
    requires IsAlu(i.op) && rd < 32
  {
    var t := Called(s, i.op, a, b);
    Finish(t.(regs := PutReg(t.regs, rd, t.c)), i)
  }

  lemma StoredAfter(s: State, i: Inst, a: u64, b: u64, rd: nat)
    requires IsAlu(i.op) && rd < 32 && PutsReg(i, rd) && !i.storeRa
    ensures MicroExec.Stored(Called(s, i.op, a, b), i) == Some(After(s, i, a, b, rd))
  {
    hide Alu, NextPc, IsAlu;
  }

  lemma StepAfter(p: Platform, s: State, i: Inst, a: u64, b: u64, rd: nat)
    requires FetchedAs(p.rom, s.pc, i) && IsAlu(i.op) && rd < 32 && PutsReg(i, rd) && !i.storeRa
    requires !i.aSrc.SrcMem? && DirectA(s, i) == Some(a) && !MemoryB(i) && DirectB(s, i) == Some(b)
    ensures Step(p, s) == Some(After(s, i, a, b, rd))
  {
    hide Step, FetchedAs, After, Alu, IsAlu, Exec, DirectA, DirectB, MicroExec.Stored;
    StepAs(p, s, i);
    ExecDirect(p.prims, i, s, a, b);
    StoredAfter(s, i, a, b, rd);
  }

  /** The fields of the state after a step that the exit code looks at. */
  lemma AfterFields(s: State, i: Inst, a: u64, b: u64, rd: nat, c: u64, flag: bool)
    requires IsAlu(i.op) && rd < 32 && Alu(i.op, a, b) == (c, flag)
    ensures var t := After(s, i, a, b, rd);
            && t.a == a && t.b == b && t.c == c && t.end == i.end && t.mem == s.mem && t.regs == PutReg(s.regs, rd, c)
            && t.pc == (if i.setPc then Wrap(c + i.jmpOffset1) else if flag then Wrap(s.pc + i.jmpOffset1) else Wrap(s.pc + i.jmpOffset2))
  {
    hide Alu, IsAlu, Wrap;
  }

  // ---- the exit run ----

  /** The step from s publishes a word. */
  predicate Publishes(p: Platform, s: State) {
    GetInstruction(p.rom, s.pc).Some? && GetInstruction(p.rom, s.pc).value.op.PubOut?
  }

  /** From s, the run ends at ROM_EXIT after exactly n steps with the memory it started with, and
      publishes the given pairs of index and word, in this order. */
  ghost predicate Exits(p: Platform, s: State, n: nat, outs: seq<(u64, u64)>, m: Memory)
    decreases n
  {
    if n == 0 then s.end && s.pc == ROM_EXIT && outs == [] && s.mem == m
    else
      && !s.end && Step(p, s).Some?
      && var t := Step(p, s).value;
         if Publishes(p, s) then outs != [] && outs[0] == (t.a, t.b) && Exits(p, t, n - 1, outs[1..], m)
         else Exits(p, t, n - 1, outs, m)
  }

  lemma {:induction false} ExitsHalts(p: Platform, s: State, n: nat, outs: seq<(u64, u64)>, m: Memory)
    requires Exits(p, s, n, outs, m)
    ensures Halts(p, s, n)
    decreases n
  {
    hide Step, Publishes, Run;
    if n == 0 {
      RunNothing(p, s);
    } else {
      var t := Step(p, s).value;
      ExitsHalts(p, t, n - 1, if Publishes(p, s) then outs[1..] else outs, m);
      RunMore(p, s, n - 1);
      forall k | 0 <= k < n
        ensures Unfinished(p, s, k)
      {
        if k == 0 {
          RunNothing(p, s);
        } else {
          RunMore(p, s, k - 1);
          assert Unfinished(p, t, k - 1);
        }
      }
    }
  }

  lemma RunNothing(p: Platform, s: State)
    ensures Run(p, s, 0) == Some(s)
  {
  }

  lemma OpOf(p: Platform, s: State, i: Inst)
    requires FetchedAs(p.rom, s.pc, i)
    ensures Publishes(p, s) <==> i.op.PubOut?
  {
    hide GetInstruction;
    SameFields(GetInstruction(p.rom, s.pc).value, i);
    hide SameInst;
  }

  /** One quiet step in front of an exit run. */
  lemma ExitsMore(p: Platform, s: State, i: Inst, t: State, n: nat, outs: seq<(u64, u64)>, m: Memory)
    requires FetchedAs(p.rom, s.pc, i) && !i.op.PubOut? && !s.end && Step(p, s) == Some(t) && Exits(p, t, n, outs, m)
    ensures Exits(p, s, n + 1, outs, m)
  {
    hide Step, Publishes, FetchedAs;
    OpOf(p, s, i);
  }

  /** What a step changed: one register, pc and c; the memory is the same and the run goes on. */
  ghost predicate Moves(s: State, t: State, rd: nat, c: u64, pc: int)
    requires rd < 32
  {
    t.regs == PutReg(s.regs, rd, c) && t.c == c && t.pc == pc && t.mem == s.mem && !t.end
  }

  /** A step with operands a and b that are not in memory. */
  lemma Moved(p: Platform, s: State, i: Inst, a: u64, b: u64, rd: nat, c: u64, flag: bool) returns (t: State)
    requires FetchedAs(p.rom, s.pc, i) && IsAlu(i.op) && rd < 32 && PutsReg(i, rd) && !i.storeRa && !i.end
    requires !i.aSrc.SrcMem? && DirectA(s, i) == Some(a) && !MemoryB(i) && DirectB(s, i) == Some(b)
    requires Alu(i.op, a, b) == (c, flag)
    ensures Step(p, s) == Some(t) && t.a == a && t.b == b
    ensures Moves(s, t, rd, c, if i.setPc then Wrap(c + i.jmpOffset1)
                               else if flag then Wrap(s.pc + i.jmpOffset1) else Wrap(s.pc + i.jmpOffset2))
  {
    hide Step, FetchedAs, After, Alu, IsAlu, DirectA, DirectB, Wrap;
    StepAfter(p, s, i, a, b, rd);
    AfterFields(s, i, a, b, rd, c, flag);
    t := After(s, i, a, b, rd);
  }

  lemma CopyShape(z: Inst, v: u64, s: State)
    ensures var i := CopyTo(z, v);
            !i.aSrc.SrcMem? && DirectA(s, i) == Some(0) && !MemoryB(i) && DirectB(s, i) == Some(v) && i.op == CopyB
  {
    hide Imm;
    ImmediateA(z, 0, s);
    ImmediateB(z.SrcA(AImm, 0, false), v, s);
  }

  /** Loading a constant into a register. */
  lemma SetRegMoves(p: Platform, s: State, z: Inst, v: u64, reg: nat) returns (t: State)
    requires 0 < reg < 32 && !z.storeRa && !z.end && !z.setPc && s.pc + 4 < 0x1_0000_0000_0000_0000
    requires FetchedAs(p.rom, s.pc, SetReg(z, v, reg))
    ensures Step(p, s) == Some(t) && Moves(s, t, reg, v, s.pc + 4)
  {
    hide Imm, Step, FetchedAs;
    WrapSmall(s.pc + 4);
    CopyShape(z, v, s);
    hide Wrap;
    var i := SetReg(z, v, reg);
    SameOperands(s, CopyTo(z, v), i);
    t := Moved(p, s, i, 0, v, reg, v, false);
  }

  lemma SameOperands(s: State, i: Inst, j: Inst)
    requires i.aSrc == j.aSrc && i.aOffsetImm0 == j.aOffsetImm0 && i.aUseSpImm1 == j.aUseSpImm1
    requires i.bSrc == j.bSrc && i.bOffsetImm0 == j.bOffsetImm0 && i.bUseSpImm1 == j.bUseSpImm1
    ensures DirectA(s, i) == DirectA(s, j) && DirectB(s, i) == DirectB(s, j)
  {
  }

  /** Comparing two registers, which jumps by j1 when they are equal. */
  function CompareRegs(z: Inst, x: nat, y: nat, j1: i32): Inst
    requires x < 32 && y < 32
  {
    z.SrcA(AReg, x, false).SrcB(BReg, y, false).WithOp(Op.Eq).StoreTo(TNone, 0, false, false).J(j1, 4)
  }

  lemma CompareMoves(p: Platform, s: State, z: Inst, x: nat, y: nat, j1: i32) returns (t: State)
    requires 0 < x < 32 && 0 < y < 32 && z.store.StoreNone? && !z.end && !z.setPc
    requires 0 <= j1 && s.pc + j1 + 4 < 0x1_0000_0000_0000_0000
    requires FetchedAs(p.rom, s.pc, CompareRegs(z, x, y, j1))
    ensures Step(p, s) == Some(t)
    ensures Moves(s, t, 0, if s.regs[x] == s.regs[y] then 1 else 0, if s.regs[x] == s.regs[y] then s.pc + j1 else s.pc + 4)
  {
    hide Imm, Step, FetchedAs;
    WrapSmall(s.pc + 4);
    WrapSmall(s.pc + j1);
    hide Wrap;
    RegisterA(z, x, s);
    RegisterB(z.SrcA(AReg, x, false), y, s);
    var i := CompareRegs(z, x, y, j1);
    SameOperands(s, z.SrcA(AReg, x, false).SrcB(BReg, y, false), i);
    var equal := s.regs[x] == s.regs[y];
    t := Moved(p, s, i, s.regs[x], s.regs[y], 0, if equal then 1 else 0, equal);
  }

  /** Adding a constant to a register. */
  function AddTo(z: Inst, reg: nat, v: u64, j1: i32, j2: i32): Inst
    requires reg < 32
  {
    z.SrcA(AReg, reg, false).SrcB(BImm, v, false).WithOp(Add).StoreTo(TReg, reg, false, false).J(j1, j2)
  }

  lemma AddMoves(p: Platform, s: State, z: Inst, reg: nat, v: u64, j1: i32, j2: i32) returns (t: State)
    requires 0 < reg < 32 && !z.storeRa && !z.end && !z.setPc
    requires 0 <= s.pc + j2 < 0x1_0000_0000_0000_0000 && s.regs[reg] + v < 0x1_0000_0000_0000_0000
    requires FetchedAs(p.rom, s.pc, AddTo(z, reg, v, j1, j2))
    ensures Step(p, s) == Some(t) && Moves(s, t, reg, s.regs[reg] + v, s.pc + j2)
  {
    hide Imm, Step, FetchedAs;
    WrapSmall(s.pc + j2);
    WrapSmall(s.regs[reg] + v);
    RegisterA(z, reg, s);
    ImmediateB(z.SrcA(AReg, reg, false), v, s);
    var i := AddTo(z, reg, v, j1, j2);
    SameOperands(s, z.SrcA(AReg, reg, false).SrcB(BImm, v, false), i);
    assert Alu(Add, s.regs[reg], v) == (Wrap(s.regs[reg] + v), false);
    hide Wrap, Alu;
    t := Moved(p, s, i, s.regs[reg], v, reg, s.regs[reg] + v, false);
  }

  function LoadWord(z: Inst): Inst {
    z.SrcA(AReg, 13, false).SrcB(BInd, 0, false).IndWidth(8).WithOp(CopyB).StoreTo(TNone, 0, false, false).J(0, 4)
  }

  lemma LoadWordMoves(p: Platform, s: State, z: Inst, w: u64) returns (t: State)
    requires z.store.StoreNone? && !z.end && !z.setPc && s.pc + 4 < 0x1_0000_0000_0000_0000
    requires FetchedAs(p.rom, s.pc, LoadWord(z)) && Read(s.mem, s.regs[13], 8) == Some(w)
    ensures Step(p, s) == Some(t) && Moves(s, t, 0, w, s.pc + 4)
  {
    hide Imm, Step, FetchedAs, Read;
    WrapSmall(s.pc + 4);
    WrapSmall(s.regs[13]);
    hide Wrap;
    RegisterA(z, 13, s);
    var i := LoadWord(z);
    assert DirectA(s, i) == DirectA(s, z.SrcA(AReg, 13, false));
    assert MemoryB(i) && AddrB(s.(a := s.regs[13]), i) == Wrap(s.regs[13]) && WidthB(i) == 8;
    StepAs(p, s, i);
    ExecLoad(p.prims, i, s, s.regs[13], Some(w));
    StoredAfter(s, i, s.regs[13], w, 0);
    AfterFields(s, i, s.regs[13], w, 0, w, false);
    t := After(s, i, s.regs[13], w, 0);
  }

  function Publish(z: Inst): Inst {
    z.SrcA(AReg, 12, false).SrcB(BLastC, 0, false).WithOp(PubOut).StoreTo(TNone, 0, false, false).J(0, 4)
  }

  lemma PublishMoves(p: Platform, s: State, z: Inst) returns (t: State)
    requires z.store.StoreNone? && !z.end && !z.setPc && s.pc + 4 < 0x1_0000_0000_0000_0000
    requires FetchedAs(p.rom, s.pc, Publish(z))
    ensures Step(p, s) == Some(t) && Moves(s, t, 0, s.c, s.pc + 4) && t.a == s.regs[12] && t.b == s.c
  {
    hide Imm, Step, FetchedAs;
    WrapSmall(s.pc + 4);
    hide Wrap;
    RegisterA(z, 12, s);
    var i := Publish(z);
    assert DirectA(s, i) == DirectA(s, z.SrcA(AReg, 12, false));
    t := Moved(p, s, i, s.regs[12], s.c, 0, s.c, false);
  }

  lemma ToExitMoves(p: Platform, s: State, z: Inst) returns (t: State)
    requires z.store.StoreNone? && !z.storeRa && !z.end && !z.setPc
    requires FetchedAs(p.rom, s.pc, CopyTo(z, ROM_EXIT).WithSetPc().J(0, 0))
    ensures Step(p, s) == Some(t) && Moves(s, t, 0, ROM_EXIT, ROM_EXIT)
  {
    hide Imm, Step, FetchedAs;
    WrapSmall(ROM_EXIT);
    hide Wrap;
    CopyShape(z, ROM_EXIT, s);
    var i := CopyTo(z, ROM_EXIT).WithSetPc().J(0, 0);
    SameOperands(s, CopyTo(z, ROM_EXIT), i);
    t := Moved(p, s, i, 0, ROM_EXIT, 0, ROM_EXIT, false);
  }

  /** The last instruction sets the end flag and stays where it is. */
  lemma EndStep(p: Platform, s: State)
    requires FetchedAs(p.rom, ROM_EXIT, EndInst()) && s.pc == ROM_EXIT && !s.end
    ensures Exits(p, s, 1, [], s.mem)
  {
    hide Imm, FetchedAs, Publishes, Step;
    WrapSmall(ROM_EXIT);
    hide Wrap;
    var i := EndInst();
    CopyShape(NewInst(ROM_EXIT), 0, s);
    SameOperands(s, CopyTo(NewInst(ROM_EXIT), 0), i);
    StepAfter(p, s, i, 0, 0, 0);
    AfterFields(s, i, 0, 0, 0, 0, false);
    OpOf(p, s, i);
    var t := After(s, i, 0, 0, 0);
    assert Exits(p, t, 0, [], s.mem);
  }

  lemma FetchBios(rom: Rom, base: u64, addr: u64, k: nat)
    requires base + 0x40 < 0x1_0000_0000_0000_0000 && FetchesBios(rom, base, addr) && k < 16
    ensures FetchedAs(rom, base + 4 * k, BiosInst(base, addr, k))
  {
    hide FetchedAs, BiosInst;
  }

  /** The instructions of the output loop. */
  lemma SetupInsts(base: u64, addr: u64)
    requires base + 0x40 < 0x1_0000_0000_0000_0000
    ensures BiosInst(base, addr, 5) == SetReg(NewInst(base + 0x14).IndWidth(4), 32, 11)
    ensures BiosInst(base, addr, 6) == SetReg(NewInst(base + 0x18), 0, 12)
    ensures BiosInst(base, addr, 7) == SetReg(NewInst(base + 0x1C), OUTPUT_ADDR, 13)
  {
    hide Inst.SrcA, Inst.SrcB, Inst.StoreTo, Inst.J;
  }

  lemma LoopInsts(base: u64, addr: u64)
    requires base + 0x40 < 0x1_0000_0000_0000_0000
    ensures BiosInst(base, addr, 8) == CompareRegs(NewInst(base + 0x20), 11, 12, 20)
    ensures BiosInst(base, addr, 9) == LoadWord(NewInst(base + 0x24))
    ensures BiosInst(base, addr, 10) == Publish(NewInst(base + 0x28))
    ensures BiosInst(base, addr, 11) == AddTo(NewInst(base + 0x2C), 13, 8, 0, 4)
    ensures BiosInst(base, addr, 12) == AddTo(NewInst(base + 0x30), 12, 1, 4, -16)
    ensures BiosInst(base, addr, 13) == CopyTo(NewInst(base + 0x34), ROM_EXIT).WithSetPc().J(0, 0)
  {
    hide Inst.SrcA, Inst.SrcB, Inst.StoreTo, Inst.J;
  }

  /** The 32 words that are published. */
  ghost predicate OutputWords(m: Memory, w: seq<u64>) {
    |w| == 32 && forall i :: 0 <= i < 32 ==> OutputWord(m, i, w[i])
  }

  predicate OutputWord(m: Memory, i: nat, w: u64)
    requires i < 32
  {
    Read(m, OUTPUT_ADDR + 8 * i, 8) == Some(w)
  }

  /** Index and word, from position i on. */
  function Published(w: seq<u64>, i: nat): (r: seq<(u64, u64)>)
    requires i <= |w| == 32
    decreases 32 - i
  {
    if i == 32 then [] else [(i, w[i])] + Published(w, i + 1)
  }

  ghost predicate AtLoop(s: State, base: u64, i: nat, m: Memory) {
    s.pc == base + 0x20 && s.regs[11] == 32 && s.regs[12] == i && s.regs[13] == OUTPUT_ADDR + 8 * i && s.mem == m && !s.end
  }

  /** The state after the compare, load, publish and add instructions of one round. */
  lemma LoopRound(p: Platform, s: State, base: u64, addr: u64, i: nat, w: u64) returns (t1: State, t2: State, t3: State, t4: State, t5: State)
    requires base + 0x40 < 0x1_0000_0000_0000_0000 && FetchesBios(p.rom, base, addr)
    requires i < 32 && AtLoop(s, base, i, s.mem) && OutputWord(s.mem, i, w)
    ensures Step(p, s) == Some(t1) && Step(p, t1) == Some(t2) && Step(p, t2) == Some(t3) && Step(p, t3) == Some(t4)
    ensures Step(p, t4) == Some(t5)
    ensures t1.pc == base + 0x24 && t2.pc == base + 0x28 && t3.pc == base + 0x2C && t4.pc == base + 0x30
    ensures !t1.end && !t2.end && !t3.end && !t4.end && (t3.a, t3.b) == (i, w)
    ensures AtLoop(t5, base, i + 1, s.mem)
  {
    hide Step, FetchedAs, BiosInst, CompareRegs, LoadWord, Publish, AddTo, Read, FetchesBios;
    LoopInsts(base, addr);
    FetchBios(p.rom, base, addr, 8);
    t1 := CompareMoves(p, s, NewInst(base + 0x20), 11, 12, 20);
    FetchBios(p.rom, base, addr, 9);
    t2 := LoadWordMoves(p, t1, NewInst(base + 0x24), w);
    FetchBios(p.rom, base, addr, 10);
    t3 := PublishMoves(p, t2, NewInst(base + 0x28));
    FetchBios(p.rom, base, addr, 11);
    t4 := AddMoves(p, t3, NewInst(base + 0x2C), 13, 8, 0, 4);
    FetchBios(p.rom, base, addr, 12);
    t5 := AddMoves(p, t4, NewInst(base + 0x30), 12, 1, 4, -16);
  }

  lemma QuietInsts(base: u64, addr: u64, k: nat)
    requires base + 0x40 < 0x1_0000_0000_0000_0000 && k < 16
    ensures BiosInst(base, addr, k).op.PubOut? <==> k == 10
  {
  }

  lemma QuietMore(p: Platform, s: State, t: State, base: u64, addr: u64, k: nat, n: nat, outs: seq<(u64, u64)>, m: Memory)
    requires base + 0x40 < 0x1_0000_0000_0000_0000 && FetchesBios(p.rom, base, addr) && k < 16 && k != 10
    requires s.pc == base + 4 * k && !s.end && Step(p, s) == Some(t) && Exits(p, t, n, outs, m)
    ensures Exits(p, s, n + 1, outs, m)
  {
    hide Step, FetchedAs, BiosInst, FetchesBios, Exits;
    FetchBios(p.rom, base, addr, k);
    QuietInsts(base, addr, k);
    ExitsMore(p, s, BiosInst(base, addr, k), t, n, outs, m);
  }

  lemma PublishMore(p: Platform, s: State, t: State, base: u64, addr: u64, n: nat, outs: seq<(u64, u64)>, m: Memory)
    requires base + 0x40 < 0x1_0000_0000_0000_0000 && FetchesBios(p.rom, base, addr)
    requires s.pc == base + 0x28 && !s.end && Step(p, s) == Some(t) && Exits(p, t, n, outs, m)
    ensures Exits(p, s, n + 1, [(t.a, t.b)] + outs, m)
  {
    hide Step, FetchedAs, BiosInst, FetchesBios, Publishes;
    FetchBios(p.rom, base, addr, 10);
    QuietInsts(base, addr, 10);
    OpOf(p, s, BiosInst(base, addr, 10));
    assert ([(t.a, t.b)] + outs)[1..] == outs;
  }

  /** From the head of the loop, the words from index i on are published, one per round: 32 - x12
      rounds are left. */
  lemma {:induction false} LoopExits(p: Platform, s: State, base: u64, addr: u64, i: nat, w: seq<u64>)
    requires base + 0x40 < 0x1_0000_0000_0000_0000 && FetchesBios(p.rom, base, addr)
    requires i <= 32 && AtLoop(s, base, i, s.mem) && OutputWords(s.mem, w)
    ensures Exits(p, s, 5 * (32 - i) + 3, Published(w, i), s.mem)
    decreases 32 - i
  {
    hide Step, FetchedAs, BiosInst, CompareRegs, FetchesBios, Exits, CopyTo, Read;
    var m := s.mem;
    if i == 32 {
      LoopInsts(base, addr);
      FetchBios(p.rom, base, addr, 8);
      var t1 := CompareMoves(p, s, NewInst(base + 0x20), 11, 12, 20);
      FetchBios(p.rom, base, addr, 13);
      var t2 := ToExitMoves(p, t1, NewInst(base + 0x34));
      FetchEnd(p.rom, base, addr);
      EndStep(p, t2);
      QuietMore(p, t1, t2, base, addr, 13, 1, [], m);
      QuietMore(p, s, t1, base, addr, 8, 2, [], m);
    } else {
      assert OutputWord(m, i, w[i]);
      var t1, t2, t3, t4, t5 := LoopRound(p, s, base, addr, i, w[i]);
      LoopExits(p, t5, base, addr, i + 1, w);
      var outs, n := Published(w, i + 1), 5 * (32 - (i + 1)) + 3;
      QuietMore(p, t4, t5, base, addr, 12, n, outs, m);
      QuietMore(p, t3, t4, base, addr, 11, n + 1, outs, m);
      PublishMore(p, t2, t3, base, addr, n + 2, outs, m);
      QuietMore(p, t1, t2, base, addr, 9, n + 3, Published(w, i), m);
      QuietMore(p, s, t1, base, addr, 8, n + 4, Published(w, i), m);
    }
  }

  lemma FetchEnd(rom: Rom, base: u64, addr: u64)
    requires base + 0x40 < 0x1_0000_0000_0000_0000 && FetchesBios(rom, base, addr)
    ensures FetchedAs(rom, ROM_EXIT, EndInst())
  {
  }

  /** The exit run. When the program returns, the run ends at ROM_EXIT after 166 steps, having
      published exactly the 32 output words in order, whatever the registers hold. */
  lemma ExitPublishes(p: Platform, s: State, base: u64, addr: u64, w: seq<u64>)
    requires base + 0x40 < 0x1_0000_0000_0000_0000 && FetchesBios(p.rom, base, addr)
    requires |w| == 32 && s.pc == base + 0x14 && !s.end && OutputWords(s.mem, w)
    ensures Exits(p, s, 166, Published(w, 0), s.mem) && Halts(p, s, 166)
  {
    hide Step, FetchedAs, BiosInst, SetReg, FetchesBios, Exits, OutputWords, Published;
    SetupInsts(base, addr);
    FetchBios(p.rom, base, addr, 5);
    var t1 := SetRegMoves(p, s, NewInst(base + 0x14).IndWidth(4), 32, 11);
    FetchBios(p.rom, base, addr, 6);
    var t2 := SetRegMoves(p, t1, NewInst(base + 0x18), 0, 12);
    FetchBios(p.rom, base, addr, 7);
    var t3 := SetRegMoves(p, t2, NewInst(base + 0x1C), OUTPUT_ADDR, 13);
    LoopExits(p, t3, base, addr, 0, w);
    QuietMore(p, t2, t3, base, addr, 7, 163, Published(w, 0), s.mem);
    QuietMore(p, t1, t2, base, addr, 6, 164, Published(w, 0), s.mem);
    QuietMore(p, s, t1, base, addr, 5, 165, Published(w, 0), s.mem);
    ExitsHalts(p, s, 166, Published(w, 0), s.mem);
  }

  /** The trap handler: with the exit code in x17 it goes to the exit run; otherwise it returns to
      the address in x1. */
  lemma TrapExits(p: Platform, s: State, base: u64, addr: u64, w: seq<u64>)
    requires base + 0x40 < 0x1_0000_0000_0000_0000 && FetchesBios(p.rom, base, addr)
    requires |w| == 32 && s.pc == base + 0x38 && !s.end
    ensures s.regs[17] == CAUSE_EXIT && OutputWords(s.mem, w) ==>
              Exits(p, s, 167, Published(w, 0), s.mem) && Halts(p, s, 167)
    ensures s.regs[17] != CAUSE_EXIT ==>
              Run(p, s, 2).Some? && Moves(s, Run(p, s, 2).value, 0, s.regs[1], s.regs[1])
  {
    hide Step, FetchedAs, BiosInst, FetchesBios, Exits, OutputWords, Published, Run, Halts;
    var t := TrapMoves(p, s, base, addr);
    if s.regs[17] == CAUSE_EXIT {
      if OutputWords(s.mem, w) {
        ExitPublishes(p, t, base, addr, w);
        QuietMore(p, s, t, base, addr, 14, 166, Published(w, 0), s.mem);
        ExitsHalts(p, s, 167, Published(w, 0), s.mem);
      }
    } else {
      var u := ReturnMoves(p, t, base, addr);
      RunMore(p, s, 1);
      RunOne(p, t);
    }
  }

  lemma TrapMoves(p: Platform, s: State, base: u64, addr: u64) returns (t: State)
    requires base + 0x40 < 0x1_0000_0000_0000_0000 && FetchesBios(p.rom, base, addr)
    requires s.pc == base + 0x38
    ensures Step(p, s) == Some(t)
    ensures var exit := s.regs[17] == CAUSE_EXIT;
            Moves(s, t, 0, if exit then 1 else 0, if exit then base + 0x14 else base + 0x3C)
  {
    hide Imm, Step, FetchedAs, FetchesBios;
    FetchBios(p.rom, base, addr, 14);
    var z := NewInst(base + 0x38);
    RegisterA(z, 17, s);
    ImmediateB(z.SrcA(AReg, 17, false), CAUSE_EXIT, s);
    var i := BiosInst(base, addr, 14);
    SameOperands(s, z.SrcA(AReg, 17, false).SrcB(BImm, CAUSE_EXIT, false), i);
    var exit := s.regs[17] == CAUSE_EXIT;
    WrapSmall(base + 0x14);
    WrapSmall(base + 0x3C);
    hide Wrap;
    t := Moved(p, s, i, s.regs[17], CAUSE_EXIT, 0, if exit then 1 else 0, exit);
  }

  lemma ReturnMoves(p: Platform, s: State, base: u64, addr: u64) returns (t: State)
    requires base + 0x40 < 0x1_0000_0000_0000_0000 && FetchesBios(p.rom, base, addr)
    requires s.pc == base + 0x3C
    ensures Step(p, s) == Some(t) && Moves(s, t, 0, s.regs[1], s.regs[1])
  {
    hide Imm, Step, FetchedAs, FetchesBios;
    FetchBios(p.rom, base, addr, 15);
    var z := NewInst(base + 0x3C);
    ImmediateA(z, 0, s);
    RegisterB(z.SrcA(AImm, 0, false), 1, s);
    var i := BiosInst(base, addr, 15);
    SameOperands(s, z.SrcA(AImm, 0, false).SrcB(BReg, 1, false), i);
    WrapSmall(s.regs[1]);
    hide Wrap;
    t := Moved(p, s, i, 0, s.regs[1], 0, s.regs[1], false);
  }

  // ---- emitting the code ----

  /** Instructions number i to j - 1 of the section. */
  ghost function Section(base: u64, addr: u64, i: nat, j: nat): Insts
    requires base + 0x40 < 0x1_0000_0000_0000_0000 && j <= 16
  {
    map a: u64 | base + 4 * i <= a < base + 4 * j && (a - base) % 4 == 0 :: InstAt(base, addr, a)
  }

  function InstAt(base: u64, addr: u64, a: u64): Inst
    requires base + 0x40 < 0x1_0000_0000_0000_0000 && base <= a < base + 0x40
  {
    BiosInst(base, addr, (a - base) / 4)
  }

  lemma SectionNext(insts: Insts, base: u64, addr: u64, i: nat, j: nat)
    requires base + 0x40 < 0x1_0000_0000_0000_0000 && i <= j < 16
    ensures (insts + Section(base, addr, i, j))[base + 4 * j := BiosInst(base, addr, j)] == insts + Section(base, addr, i, j + 1)
  {
    hide BiosInst;
    var l, r := (insts + Section(base, addr, i, j))[base + 4 * j := BiosInst(base, addr, j)], insts + Section(base, addr, i, j + 1);
    assert InstAt(base, addr, base + 4 * j) == BiosInst(base, addr, j);
    forall a: u64
      ensures a in l <==> a in r
      ensures a in l ==> l[a] == r[a]
    {
      if base + 4 * j < a < base + 4 * j + 4 {
        assert (a - base) % 4 != 0;
      }
    }
  }

  lemma SectionNone(insts: Insts, base: u64, addr: u64)
    requires base + 0x40 < 0x1_0000_0000_0000_0000
    ensures insts + Section(base, addr, 0, 0) == insts
  {
  }

  /** Starts an instruction that copies a constant. */
  method NewCopy(paddr: u64, v: u64) returns (zib: ZiskInstBuilder)
    ensures fresh(zib) && zib.i == CopyTo(NewInst(paddr), v)
  {
    zib := new ZiskInstBuilder(paddr);
    zib.SrcA(AImm, 0, false);
    zib.SrcB(BImm, v, false);
    zib.SetOp(CopyB);
  }

  /** One that loads a constant into a register; width 4 for the one that sets the attribute. */
  method NewSetReg(paddr: u64, v: u64, reg: nat, narrow: bool) returns (i: Inst)
    requires reg < 32
    ensures i == SetReg(if narrow then NewInst(paddr).IndWidth(4) else NewInst(paddr), v, reg)
  {
    var zib := NewCopy(paddr, v);
    if narrow {
      zib.IndWidth(4);
    }
    zib.Store(TReg, reg, false, false);
    zib.J(0, 4);
    i := zib.i;
  }

  lemma EntryInsts(base: u64, addr: u64)
    requires base + 0x40 < 0x1_0000_0000_0000_0000
    ensures BiosInst(base, addr, 0) == CopyTo(NewInst(base), ARCH_ID_ZISK).StoreTo(TMem, CSR_ADDR + 0xF12, false, false).J(4, 4)
    ensures BiosInst(base, addr, 1) == CopyTo(NewInst(base + 4), base + 0x38).StoreTo(TMem, MTVEC, false, false).J(4, 4)
    ensures BiosInst(base, addr, 2) == SetReg(NewInst(base + 8), INPUT_ADDR, 10)
    ensures BiosInst(base, addr, 3) == SetReg(NewInst(base + 0xC), OUTPUT_ADDR, 11)
    ensures BiosInst(base, addr, 4) == CopyTo(NewInst(base + 0x10), addr).WithSetPc().StoreRa(TReg, 1, false).J(0, 4)
  {
    hide Inst.SrcA, Inst.SrcB, Inst.StoreTo, Inst.J;
  }

  /** Sets up identification, trap handler and parameters, and calls the program. */
  method AddEntry(insts: Insts, base: u64, addr: u64) returns (r: Insts)
    requires base + 0x40 < 0x1_0000_0000_0000_0000
    ensures r == insts + Section(base, addr, 0, 5)
  {
    hide Section, SetReg, BiosInst, CopyTo;
    EntryInsts(base, addr);
    var trapHandler := base + 0x38;
    SectionNone(insts, base, addr);
    var zib := NewCopy(base, ARCH_ID_ZISK);
    zib.Store(TMem, CSR_ADDR + 0xF12, false, false);
    zib.J(4, 4);
    r := insts[base := zib.i];
    SectionNext(insts, base, addr, 0, 0);
    zib := NewCopy(base + 4, trapHandler);
    zib.Store(TMem, MTVEC, false, false);
    zib.J(4, 4);
    r := r[base + 4 := zib.i];
    SectionNext(insts, base, addr, 0, 1);
    var i := NewSetReg(base + 8, INPUT_ADDR, 10, false);
    r := r[base + 8 := i];
    SectionNext(insts, base, addr, 0, 2);
    i := NewSetReg(base + 0xC, OUTPUT_ADDR, 11, false);
    r := r[base + 0xC := i];
    SectionNext(insts, base, addr, 0, 3);
    zib := NewCopy(base + 0x10, addr);
    zib.SetPc();
    zib.StoreRa(TReg, 1, false);
    zib.J(0, 4);
    r := r[base + 0x10 := zib.i];
    SectionNext(insts, base, addr, 0, 4);
  }

  /** The output loop. */
  method AddOutput(insts: Insts, base: u64, addr: u64, ghost before: Insts) returns (r: Insts)
    requires base + 0x40 < 0x1_0000_0000_0000_0000 && insts == before + Section(base, addr, 0, 5)
    ensures r == before + Section(base, addr, 0, 10)
  {
    hide Section, BiosInst, SetReg, CompareRegs, LoadWord;
    SetupInsts(base, addr);
    LoopInsts(base, addr);
    var i := NewSetReg(base + 0x14, 32, 11, true);
    r := insts[base + 0x14 := i];
    SectionNext(before, base, addr, 0, 5);
    i := NewSetReg(base + 0x18, 0, 12, false);
    r := r[base + 0x18 := i];
    SectionNext(before, base, addr, 0, 6);
    i := NewSetReg(base + 0x1C, OUTPUT_ADDR, 13, false);
    r := r[base + 0x1C := i];
    SectionNext(before, base, addr, 0, 7);
    i := NewCompare(base + 0x20);
    r := r[base + 0x20 := i];
    SectionNext(before, base, addr, 0, 8);
    i := NewLoad(base + 0x24);
    r := r[base + 0x24 := i];
    SectionNext(before, base, addr, 0, 9);
  }

  method NewCompare(paddr: u64) returns (i: Inst)
    ensures i == CompareRegs(NewInst(paddr), 11, 12, 20)
  {
    var zib := new ZiskInstBuilder(paddr);
    zib.SrcA(AReg, 11, false);
    zib.SrcB(BReg, 12, false);
    zib.SetOp(Op.Eq);
    zib.Store(TNone, 0, false, false);
    zib.J(20, 4);
    i := zib.i;
  }

  method NewLoad(paddr: u64) returns (i: Inst)
    ensures i == LoadWord(NewInst(paddr))
  {
    var zib := new ZiskInstBuilder(paddr);
    zib.SrcA(AReg, 13, false);
    zib.SrcB(BInd, 0, false);
    zib.IndWidth(8);
    zib.SetOp(CopyB);
    zib.Store(TNone, 0, false, false);
    zib.J(0, 4);
    i := zib.i;
  }

  method NewPublish(paddr: u64) returns (i: Inst)
    ensures i == Publish(NewInst(paddr))
  {
    var zib := new ZiskInstBuilder(paddr);
    zib.SrcA(AReg, 12, false);
    zib.SrcB(BLastC, 0, false);
    zib.SetOp(PubOut);
    zib.Store(TNone, 0, false, false);
    zib.J(0, 4);
    i := zib.i;
  }

  method NewAdd(paddr: u64, reg: nat, v: u64, j1: i32, j2: i32) returns (i: Inst)
    requires reg < 32
    ensures i == AddTo(NewInst(paddr), reg, v, j1, j2)
  {
    var zib := new ZiskInstBuilder(paddr);
    zib.SrcA(AReg, reg, false);
    zib.SrcB(BImm, v, false);
    zib.SetOp(Add);
    zib.Store(TReg, reg, false, false);
    zib.J(j1, j2);
    i := zib.i;
  }

  /** The rest of the loop and the jump to the end. */
  method AddPublish(insts: Insts, base: u64, addr: u64, ghost before: Insts) returns (r: Insts)
    requires base + 0x40 < 0x1_0000_0000_0000_0000 && insts == before + Section(base, addr, 0, 10)
    ensures r == before + Section(base, addr, 0, 14)
  {
    hide Section, BiosInst, Publish, AddTo;
    LoopInsts(base, addr);
    var i := NewPublish(base + 0x28);
    r := insts[base + 0x28 := i];
    SectionNext(before, base, addr, 0, 10);
    i := NewAdd(base + 0x2C, 13, 8, 0, 4);
    r := r[base + 0x2C := i];
    SectionNext(before, base, addr, 0, 11);
    i := NewAdd(base + 0x30, 12, 1, 4, -16);
    r := r[base + 0x30 := i];
    SectionNext(before, base, addr, 0, 12);
    var zib := NewCopy(base + 0x34, ROM_EXIT);
    zib.SetPc();
    zib.J(0, 0);
    r := r[base + 0x34 := zib.i];
    SectionNext(before, base, addr, 0, 13);
  }

  /** The trap handler. */
  method AddTrap(insts: Insts, base: u64, addr: u64, ghost before: Insts) returns (r: Insts)
    requires base + 0x40 < 0x1_0000_0000_0000_0000 && insts == before + Section(base, addr, 0, 14)
    ensures r == before + Section(base, addr, 0, 16)
  {
    hide Section;
    var zib := new ZiskInstBuilder(base + 0x38);
    zib.SrcA(AReg, 17, false);
    zib.SrcB(BImm, CAUSE_EXIT, false);
    zib.SetOp(Op.Eq);
    zib.J(-36, 4);
    r := insts[base + 0x38 := zib.i];
    SectionNext(before, base, addr, 0, 14);
    zib := new ZiskInstBuilder(base + 0x3C);
    zib.SrcA(AImm, 0, false);
    zib.SrcB(BReg, 1, false);
    zib.SetOp(CopyB);
    zib.SetPc();
    zib.J(0, 4);
    r := r[base + 0x3C := zib.i];
    SectionNext(before, base, addr, 0, 15);
  }

  lemma SectionBuilt(base: u64, addr: u64)
    requires base + 0x40 < 0x1_0000_0000_0000_0000
    ensures Genuine(Section(base, addr, 0, 16))
  {
    hide BiosInst;
    forall a | a in Section(base, addr, 0, 16)
      ensures Built(InstAt(base, addr, a), a)
    {
      BiosBuilt(base, addr, (a - base) / 4);
    }
  }

  lemma BiosBuilt(base: u64, addr: u64, k: nat)
    requires base + 0x40 < 0x1_0000_0000_0000_0000 && k < 16
    ensures Built(BiosInst(base, addr, k), base + 4 * k)
  {
    hide Low32, High32, Wrap;
  }

  /** The whole section is in place, and nothing else has changed. */
  ghost predicate SectionAdded(before: Insts, after: Insts, base: u64, addr: u64)
    requires base + 0x40 < 0x1_0000_0000_0000_0000
  {
    && (forall k :: 0 <= k < 16 ==> base + 4 * k in after && after[base + 4 * k] == BiosInst(base, addr, k))
    && (forall a :: a < base || base + 0x40 <= a ==> (a in after <==> a in before) && (a in after ==> after[a] == before[a]))
    && (forall a :: a in after && a !in before ==> (a - base) % 4 == 0)
  }

  lemma SectionAt(base: u64, addr: u64, k: nat)
    requires base + 0x40 < 0x1_0000_0000_0000_0000 && k < 16
    ensures base + 4 * k in Section(base, addr, 0, 16) && Section(base, addr, 0, 16)[base + 4 * k] == BiosInst(base, addr, k)
  {
    hide BiosInst;
    var a := base + 4 * k;
    assert (a - base) % 4 == 0 && (a - base) / 4 == k;
    assert InstAt(base, addr, a) == BiosInst(base, addr, k);
  }

  lemma SectionKeys(base: u64, addr: u64)
    requires base + 0x40 < 0x1_0000_0000_0000_0000
    ensures forall a :: a in Section(base, addr, 0, 16) ==> base <= a < base + 0x40 && (a - base) % 4 == 0
  {
    hide BiosInst, InstAt;
  }

  lemma SectionDone(before: Insts, base: u64, addr: u64)
    requires base + 0x40 < 0x1_0000_0000_0000_0000
    ensures SectionAdded(before, before + Section(base, addr, 0, 16), base, addr)
  {
    hide BiosInst, Section;
    SectionKeys(base, addr);
    var added := Section(base, addr, 0, 16);
    forall k | 0 <= k < 16
      ensures base + 4 * k in before + added && (before + added)[base + 4 * k] == BiosInst(base, addr, k)
    {
      SectionAt(base, addr, k);
    }
  }

  lemma SectionGenuine(before: Insts, base: u64, addr: u64)
    requires base + 0x40 < 0x1_0000_0000_0000_0000 && Genuine(before)
    ensures Genuine(before + Section(base, addr, 0, 16))
  {
    SectionBuilt(base, addr);
    hide Section, Built;
  }

  /** Adds the 16 instructions around the program that starts at addr. */
  method AddEntryExitJmp(insts: Insts, nextInitInstAddr: u64, addr: u64) returns (r: Insts, next: u64)
    requires nextInitInstAddr + 0x40 < 0x1_0000_0000_0000_0000
    ensures next == nextInitInstAddr + 0x40
    ensures SectionAdded(insts, r, nextInitInstAddr, addr)
    ensures Genuine(insts) ==> Genuine(r)
  {
    hide Section, SectionAdded, Genuine;
    var base := nextInitInstAddr;
    var r1 := AddEntry(insts, base, addr);
    var r2 := AddOutput(r1, base, addr, insts);
    var r3 := AddPublish(r2, base, addr, insts);
    r := AddTrap(r3, base, addr, insts);
    next := base + 0x40;
    SectionDone(insts, base, addr);
    if Genuine(insts) {
      SectionGenuine(insts, base, addr);
    }
  }

  /** Adds the first and the last instruction of every run; only right at the start. */
  method AddEndJmp(insts: Insts, nextInitInstAddr: u64) returns (r: Option<Insts>, next: u64)
    requires nextInitInstAddr < 0x1_0000_0000
    ensures r.Some? <==> nextInitInstAddr == ROM_ENTRY
    ensures r.Some? ==> r.value == insts[ROM_ENTRY := JumpOverEnd()][ROM_EXIT := EndInst()] && next == ROM_ENTRY + 8
    ensures r.Some? && Genuine(insts) ==> Genuine(r.value)
  {
    next := nextInitInstAddr;
    if next != ROM_ENTRY {
      return None, next;
    }
    var zib := NewCopy(next, 0);
    zib.J(8, 8);
    var updated := insts[next := zib.i];
    next := next + 4;
    if next != ROM_EXIT {
      return None, next;
    }
    zib := NewCopy(next, 0);
    zib.End();
    zib.J(0, 0);
    updated := updated[next := zib.i];
    next := next + 4;
    return Some(updated), next;
  }
}
