/** What each micro-instruction that the transpiler emits does to registers, memory and pc. */
module MicroRuns {
  import opened Words
  import opened Wrappers
  import opened MemoryModel
  import opened ZiskInst
  import opened ZiskOps
  import opened Machine
  import opened Riscv
  import opened RiscvOps
  import opened RiscvMemory
  import opened Transpiler
  import opened MicroExec

  lemma RegisterOpRuns(prims: Prims, i: RvInst, op: Op, s: State)
    requires IsAlu(op)
    ensures Reaches(Exec(prims, RegisterOp(i, op, s.pc), s),
                    PutReg(s.regs, i.rd, Alu(op, Reg(s, i.rs1), Reg(s, i.rs2)).0), Wrap(s.pc + 4), s.mem)
  {
    hide Alu, Imm, Exec, MicroExec.Stored, IsAlu, Wrap;
    var z0 := NewInst(s.pc);
    RegisterA(z0, i.rs1, s);
    RegisterB(z0.SrcA(AReg, i.rs1, false), i.rs2, s);
    var z := RegisterOp(i, op, s.pc);
    var a, b := Reg(s, i.rs1), Reg(s, i.rs2);
    assert DirectA(s, z) == Some(a) && DirectB(s, z) == Some(b);
    ExecDirect(prims, z, s, a, b);
    StoreToReg(Called(s, op, a, b), z, i.rd);
  }

  lemma ImmediateOpRuns(prims: Prims, i: RvInst, op: Op, s: State)
    requires IsAlu(op)
    ensures Reaches(Exec(prims, ImmediateOp(i, op, s.pc), s),
                    PutReg(s.regs, i.rd, Alu(op, Reg(s, i.rs1), Imm64(i.imm)).0), Wrap(s.pc + 4), s.mem)
  {
    hide Alu, Imm, Exec, MicroExec.Stored, IsAlu, Wrap, Imm64;
    var z0 := NewInst(s.pc);
    RegisterA(z0, i.rs1, s);
    ImmediateB(z0.SrcA(AReg, i.rs1, false), Imm64(i.imm), s);
    var z := ImmediateOp(i, op, s.pc);
    var a, b := Reg(s, i.rs1), Imm64(i.imm);
    assert DirectA(s, z) == Some(a) && DirectB(s, z) == Some(b);
    ExecDirect(prims, z, s, a, b);
    StoreToReg(Called(s, op, a, b), z, i.rd);
  }

  lemma BranchOpRuns(prims: Prims, i: RvInst, op: Op, neg: bool, s: State)
    requires IsAlu(op)
    ensures Reaches(Exec(prims, BranchOp(i, op, neg, s.pc), s), s.regs,
                    Wrap(s.pc + (if Alu(op, Reg(s, i.rs1), Reg(s, i.rs2)).1 != neg then i.imm else 4)), s.mem)
  {
    hide Alu, Imm, Exec, MicroExec.Stored, IsAlu, Wrap;
    var z0 := NewInst(s.pc);
    RegisterA(z0, i.rs1, s);
    RegisterB(z0.SrcA(AReg, i.rs1, false), i.rs2, s);
    var z := BranchOp(i, op, neg, s.pc);
    var a, b := Reg(s, i.rs1), Reg(s, i.rs2);
    assert DirectA(s, z) == Some(a) && DirectB(s, z) == Some(b);
    ExecDirect(prims, z, s, a, b);
    StoreToReg(Called(s, op, a, b), z, 0);
  }

  lemma WrapAdd(x: int, y: int)
    ensures Wrap(x + Wrap(y)) == Wrap(x + y) == Wrap(Wrap(y) + x)
  {
  }

  lemma LoadInstRuns(prims: Prims, i: RvInst, op: Op, w: nat, s: State, v: Option<u64>)
    requires IsAlu(op) && ValidWidth(w) && v == Read(s.mem, Wrap(Reg(s, i.rs1) + i.imm), w)
    ensures v.None? ==> Exec(prims, LoadInst(i, op, w, s.pc), s).None?
    ensures v.Some? ==>
              Reaches(Exec(prims, LoadInst(i, op, w, s.pc), s),
                      PutReg(s.regs, i.rd, Alu(op, Reg(s, i.rs1), v.value).0), Wrap(s.pc + 4), s.mem)
  {
    hide Alu, Imm, Exec, MicroExec.Stored, IsAlu, Read, Wrap, Imm64, LoadInst, DirectA;
    var a := Reg(s, i.rs1);
    var z := LoadInst(i, op, w, s.pc);
    LoadBase(i, op, w, s, a);
    LoadAddress(i, op, w, s, a);
    ExecLoad(prims, z, s, a, v);
    if v.Some? {
      StoreToReg(Called(s, op, a, v.value), z, i.rd);
    }
  }

  lemma LoadBase(i: RvInst, op: Op, w: nat, s: State, a: u64)
    requires ValidWidth(w) && a == Reg(s, i.rs1)
    ensures var z := LoadInst(i, op, w, s.pc);
            !z.aSrc.SrcMem? && DirectA(s, z) == Some(a) && z.op == op && PutsReg(z, i.rd) && !z.storeRa
    ensures var z := LoadInst(i, op, w, s.pc); !z.setPc && z.jmpOffset1 == z.jmpOffset2 == 4
  {
    hide Imm, Wrap, Imm64;
    var z1 := NewInst(s.pc).SrcA(AReg, i.rs1, false);
    RegisterA(NewInst(s.pc), i.rs1, s);
    var z := LoadInst(i, op, w, s.pc);
    assert z.aSrc == z1.aSrc && z.aOffsetImm0 == z1.aOffsetImm0 && z.aUseSpImm1 == z1.aUseSpImm1;
  }

  lemma LoadAddress(i: RvInst, op: Op, w: nat, s: State, a: u64)
    requires ValidWidth(w)
    ensures var z := LoadInst(i, op, w, s.pc);
            MemoryB(z) && AddrB(s.(a := a), z) == Wrap(a + i.imm) && WidthB(z) == w
  {
    WrapAdd(a, i.imm);
    hide Wrap;
  }

  lemma StoreInstRuns(prims: Prims, i: RvInst, w: nat, s: State, m: Option<Memory>)
    requires ValidWidth(w) && m == Write(s.mem, Wrap(Reg(s, i.rs1) + i.imm), Reg(s, i.rs2), w)
    ensures m.None? ==> Exec(prims, StoreInst(i, w, s.pc), s).None?
    ensures m.Some? ==> Reaches(Exec(prims, StoreInst(i, w, s.pc), s), s.regs, Wrap(s.pc + 4), m.value)
  {
    hide Imm, Exec, MicroExec.Stored, Write, Wrap;
    var a, b := Reg(s, i.rs1), Reg(s, i.rs2);
    var z0 := NewInst(s.pc);
    RegisterA(z0, i.rs1, s);
    RegisterB(z0.SrcA(AReg, i.rs1, false), i.rs2, s);
    var z := StoreInst(i, w, s.pc);
    assert DirectA(s, z) == Some(a) && DirectB(s, z) == Some(b);
    ExecDirect(prims, z, s, a, b);
    var t := Called(s, CopyB, a, b);
    assert StoreAddr(t, z) == Wrap(a + i.imm) && ValueToStore(t, z) == b;
    StoreToMem(t, z, m);
  }

  lemma LuiRuns(prims: Prims, i: RvInst, s: State)
    ensures Reaches(Exec(prims, LuiInst(i, s.pc), s), PutReg(s.regs, i.rd, Imm64(i.imm)), Wrap(s.pc + 4), s.mem)
  {
    hide Imm, Exec, MicroExec.Stored, Wrap, Imm64;
    var z0 := NewInst(s.pc);
    ImmediateA(z0, 0, s);
    ImmediateB(z0.SrcA(AImm, 0, false), Imm64(i.imm), s);
    var z := LuiInst(i, s.pc);
    assert DirectA(s, z) == Some(0) && DirectB(s, z) == Some(Imm64(i.imm));
    ExecDirect(prims, z, s, 0, Imm64(i.imm));
    StoreToReg(Called(s, CopyB, 0, Imm64(i.imm)), z, i.rd);
  }

  /** auipc, jal and nop: the flag operation jumps by the first offset. */
  lemma FlagRuns(prims: Prims, z: Inst, s: State, rd: nat)
    requires rd < 32 && PutsReg(z, rd) && z.op == Flag && !z.setPc && (rd > 0 ==> z.storeRa)
    requires !z.aSrc.SrcMem? && DirectA(s, z) == Some(0) && !MemoryB(z) && DirectB(s, z) == Some(0)
    ensures Reaches(Exec(prims, z, s), PutReg(s.regs, rd, Wrap(s.pc + z.jmpOffset2)), Wrap(s.pc + z.jmpOffset1), s.mem)
  {
    hide Imm, Exec, MicroExec.Stored, Wrap;
    ExecDirect(prims, z, s, 0, 0);
    StoreToReg(Called(s, Flag, 0, 0), z, rd);
  }

  lemma ZeroOperands(z0: Inst, s: State)
    ensures var z := z0.SrcA(AImm, 0, false).SrcB(BImm, 0, false);
            !z.aSrc.SrcMem? && DirectA(s, z) == Some(0) && !MemoryB(z) && DirectB(s, z) == Some(0)
  {
    hide Imm;
    ImmediateA(z0, 0, s);
    ImmediateB(z0.SrcA(AImm, 0, false), 0, s);
  }

  lemma AuipcRuns(prims: Prims, i: RvInst, s: State)
    ensures Reaches(Exec(prims, AuipcInst(i, s.pc), s), PutReg(s.regs, i.rd, Wrap(s.pc + i.imm)), Wrap(s.pc + 4), s.mem)
  {
    hide Imm, Exec, Wrap;
    ZeroOperands(NewInst(s.pc), s);
    FlagRuns(prims, AuipcInst(i, s.pc), s, i.rd);
  }

  lemma JalRuns(prims: Prims, i: RvInst, s: State)
    ensures Reaches(Exec(prims, JalInst(i, s.pc), s), PutReg(s.regs, i.rd, Wrap(s.pc + 4)), Wrap(s.pc + i.imm), s.mem)
  {
    hide Imm, Exec, Wrap;
    ZeroOperands(NewInst(s.pc), s);
    FlagRuns(prims, JalInst(i, s.pc), s, i.rd);
  }

  lemma NopRuns(prims: Prims, s: State)
    ensures Reaches(Exec(prims, Nop(s.pc), s), s.regs, Wrap(s.pc + 4), s.mem)
  {
    hide Imm, Exec, Wrap;
    ZeroOperands(NewInst(s.pc), s);
    FlagRuns(prims, Nop(s.pc), s, 0);
  }

  /** The two low bits cleared. */
  function Masked(x: u64): u64 {
    x - x % 4
  }

  /** Both forms of jalr mask with the word whose two low bits are clear. */
  const MASK: u64 := 0xFFFF_FFFF_FFFF_FFFC

  lemma JalrAlignedShape(i: RvInst, s: State, b: u64)
    requires b == Reg(s, i.rs1)
    ensures var z := JalrAligned(i, s.pc);
            && !z.aSrc.SrcMem? && DirectA(s, z) == Some(MASK) && !MemoryB(z) && DirectB(s, z) == Some(b)
            && z.op == OpAnd && PutsReg(z, i.rd) && (i.rd > 0 ==> z.storeRa)
            && z.setPc && z.jmpOffset1 == i.imm && z.jmpOffset2 == 4
  {
    hide Imm, Wrap;
    var z0 := NewInst(s.pc);
    ImmediateA(z0, MASK, s);
    RegisterB(z0.SrcA(AImm, MASK, false), i.rs1, s);
  }

  lemma JalrAlignedRuns(prims: Prims, i: RvInst, s: State)
    ensures Reaches(Exec(prims, JalrAligned(i, s.pc), s), PutReg(s.regs, i.rd, Wrap(s.pc + 4)),
                    Wrap(Masked(Reg(s, i.rs1)) + i.imm), s.mem)
  {
    hide Imm, Exec, MicroExec.Stored, Wrap, BitAnd, JalrAligned, DirectA, DirectB;
    var b := Reg(s, i.rs1);
    JalrAlignedShape(i, s, b);
    var z := JalrAligned(i, s.pc);
    ExecDirect(prims, z, s, MASK, b);
    AndMask(b);
    StoreToReg(Called(s, OpAnd, MASK, b), z, i.rd);
  }

  lemma JalrFirstRuns(prims: Prims, i: RvInst, s: State)
    ensures Reaches(Exec(prims, JalrFirst(i, s.pc), s), s.regs, Wrap(s.pc + 1), s.mem)
    ensures Exec(prims, JalrFirst(i, s.pc), s).value.c == Wrap(Reg(s, i.rs1) + i.imm)
  {
    hide Imm, Exec, MicroExec.Stored;
    var z0 := NewInst(s.pc);
    var a, b := Imm64(i.imm), Reg(s, i.rs1);
    WrapAdd(b, i.imm);
    hide Wrap, Imm64;
    ImmediateA(z0, a, s);
    RegisterB(z0.SrcA(AImm, a, false), i.rs1, s);
    var z := JalrFirst(i, s.pc);
    assert DirectA(s, z) == Some(a) && DirectB(s, z) == Some(b);
    ExecDirect(prims, z, s, a, b);
    StoreToReg(Called(s, Add, a, b), z, 0);
  }

  lemma JalrSecondShape(i: RvInst, s: State)
    ensures var z := JalrSecond(i, s.pc);
            && !z.aSrc.SrcMem? && DirectA(s, z) == Some(MASK) && !MemoryB(z) && DirectB(s, z) == Some(s.c)
            && z.op == OpAnd && PutsReg(z, i.rd) && (i.rd > 0 ==> z.storeRa)
            && z.setPc && z.jmpOffset1 == 0 && z.jmpOffset2 == 3
  {
    hide Imm, Wrap;
    ImmediateA(NewInst(s.pc), MASK, s);
  }

  lemma JalrSecondRuns(prims: Prims, i: RvInst, s: State)
    ensures Reaches(Exec(prims, JalrSecond(i, s.pc), s), PutReg(s.regs, i.rd, Wrap(s.pc + 3)), Masked(s.c), s.mem)
  {
    hide Imm, Exec, MicroExec.Stored, Wrap, BitAnd, JalrSecond, DirectA, DirectB;
    JalrSecondShape(i, s);
    var z := JalrSecond(i, s.pc);
    ExecDirect(prims, z, s, MASK, s.c);
    AndMask(s.c);
    StoreToReg(Called(s, OpAnd, MASK, s.c), z, i.rd);
    WrapSmall(Masked(s.c));
  }

  lemma WrapSmall(x: u64)
    ensures Wrap(x) == x
  {
  }

  lemma AtomicLoadRuns(prims: Prims, i: RvInst, wide: bool, op: Op, dst: nat, s: State, v: Option<u64>, c: u64)
    requires op == LoadZisk(LoadOf(wide)) && IsAlu(op)
    requires dst < 32 && v == Read(s.mem, Reg(s, i.rs1), Word(wide))
    requires v.Some? ==> c == Alu(op, Reg(s, i.rs1), v.value).0
    ensures v.None? ==> Exec(prims, AtomicLoad(i, wide, dst, s.pc), s).None?
    ensures v.Some? ==>
              Reaches(Exec(prims, AtomicLoad(i, wide, dst, s.pc), s), PutReg(s.regs, dst, c), Wrap(s.pc + 1), s.mem) &&
              Exec(prims, AtomicLoad(i, wide, dst, s.pc), s).value.c == c
  {
    hide Alu, Imm, Exec, MicroExec.Stored, Read, IsAlu;
    var a := Reg(s, i.rs1);
    WrapSmall(a);
    RegisterA(NewInst(s.pc), i.rs1, s);
    hide Wrap;
    var z := AtomicLoad(i, wide, dst, s.pc);
    assert DirectA(s, z) == Some(a);
    ExecLoad(prims, z, s, a, v);
    if v.Some? {
      StoreToReg(Called(s, op, a, v.value), z, dst);
    }
  }

  /** The same with the temporary register, which is in memory, as destination. */
  lemma AtomicLoadTempRuns(prims: Prims, i: RvInst, wide: bool, op: Op, s: State, v: Option<u64>, c: u64, m: Option<Memory>)
    requires op == LoadZisk(LoadOf(wide)) && IsAlu(op)
    requires v == Read(s.mem, Reg(s, i.rs1), Word(wide))
    requires v.Some? ==> c == Alu(op, Reg(s, i.rs1), v.value).0 && m == Write(s.mem, TEMP_ADDR, c, 8)
    ensures v.None? ==> Exec(prims, AtomicLoad(i, wide, TEMP_REG, s.pc), s).None?
    ensures v.Some? && m.Some? ==>
              Reaches(Exec(prims, AtomicLoad(i, wide, TEMP_REG, s.pc), s), s.regs, Wrap(s.pc + 1), m.value) &&
              Exec(prims, AtomicLoad(i, wide, TEMP_REG, s.pc), s).value.c == c
  {
    hide Alu, Imm, Exec, MicroExec.Stored, Read, Write, IsAlu;
    var a := Reg(s, i.rs1);
    WrapSmall(a);
    WrapSmall(TEMP_ADDR);
    RegisterA(NewInst(s.pc), i.rs1, s);
    hide Wrap;
    var z := AtomicLoad(i, wide, TEMP_REG, s.pc);
    assert DirectA(s, z) == Some(a);
    ExecLoad(prims, z, s, a, v);
    if v.Some? && m.Some? {
      var t := Called(s, op, a, v.value);
      assert StoreAddr(t, z) == Wrap(TEMP_ADDR);
      StoreToMem(t, z, m);
    }
  }

  lemma AtomicCombineRuns(prims: Prims, i: RvInst, op: Op, s: State)
    requires IsAlu(op)
    ensures Reaches(Exec(prims, AtomicCombine(i, op, s.pc), s), s.regs, Wrap(s.pc + 1), s.mem)
    ensures Exec(prims, AtomicCombine(i, op, s.pc), s).value.c == Alu(op, s.c, Reg(s, i.rs2)).0
  {
    hide Alu, Imm, Exec, MicroExec.Stored, IsAlu, Wrap;
    var b := Reg(s, i.rs2);
    RegisterB(NewInst(s.pc).SrcA(ALastC, 0, false), i.rs2, s);
    var z := AtomicCombine(i, op, s.pc);
    assert DirectA(s, z) == Some(s.c) && DirectB(s, z) == Some(b);
    ExecDirect(prims, z, s, s.c, b);
    StoreToReg(Called(s, op, s.c, b), z, 0);
  }

  lemma AtomicStoreRuns(prims: Prims, i: RvInst, wide: bool, j: i32, s: State, m: Option<Memory>)
    requires m == Write(s.mem, Reg(s, i.rs1), s.c, Word(wide))
    ensures m.None? ==> Exec(prims, AtomicStore(i, wide, j, s.pc), s).None?
    ensures m.Some? ==> Reaches(Exec(prims, AtomicStore(i, wide, j, s.pc), s), s.regs, Wrap(s.pc + j), m.value)
  {
    hide Imm, Exec, MicroExec.Stored, Write;
    var a := Reg(s, i.rs1);
    WrapSmall(a);
    hide Wrap;
    RegisterA(NewInst(s.pc), i.rs1, s);
    var z := AtomicStore(i, wide, j, s.pc);
    assert DirectA(s, z) == Some(a) && DirectB(s, z) == Some(s.c);
    ExecDirect(prims, z, s, a, s.c);
    var t := Called(s, CopyB, a, s.c);
    assert StoreAddr(t, z) == Wrap(a);
    StoreToMem(t, z, m);
  }

  lemma CopyTempRuns(prims: Prims, i: RvInst, j: i32, s: State, v: u64)
    requires Read(s.mem, TEMP_ADDR, 8) == Some(v)
    ensures Reaches(Exec(prims, CopyTemp(i, j, s.pc), s), PutReg(s.regs, i.rd, v), Wrap(s.pc + j), s.mem)
  {
    hide Imm, Exec, MicroExec.Stored, Read;
    WrapSmall(TEMP_ADDR);
    hide Wrap;
    ImmediateA(NewInst(s.pc), 0, s);
    var z := CopyTemp(i, j, s.pc);
    assert DirectA(s, z) == Some(0);
    assert MemoryB(z) && AddrB(s.(a := 0), z) == Wrap(TEMP_ADDR);
    ExecLoad(prims, z, s, 0, Some(v));
    StoreToReg(Called(s, CopyB, 0, v), z, i.rd);
  }

  lemma StoreRs2Runs(prims: Prims, i: RvInst, wide: bool, j: i32, s: State, m: Option<Memory>)
    requires m == Write(s.mem, Reg(s, i.rs1), Reg(s, i.rs2), Word(wide))
    ensures m.None? ==> Exec(prims, StoreRs2(i, wide, j, s.pc), s).None?
    ensures m.Some? ==> Reaches(Exec(prims, StoreRs2(i, wide, j, s.pc), s), s.regs, Wrap(s.pc + j), m.value)
  {
    hide Imm, Exec, MicroExec.Stored, Write;
    var a, b := Reg(s, i.rs1), Reg(s, i.rs2);
    WrapSmall(a);
    hide Wrap;
    var z0 := NewInst(s.pc);
    RegisterA(z0, i.rs1, s);
    RegisterB(z0.SrcA(AReg, i.rs1, false), i.rs2, s);
    var z := StoreRs2(i, wide, j, s.pc);
    assert DirectA(s, z) == Some(a) && DirectB(s, z) == Some(b);
    ExecDirect(prims, z, s, a, b);
    var t := Called(s, CopyB, a, b);
    assert StoreAddr(t, z) == Wrap(a);
    StoreToMem(t, z, m);
  }

  lemma ScResultRuns(prims: Prims, i: RvInst, wide: bool, s: State)
    ensures Reaches(Exec(prims, ScResult(i, wide, s.pc), s), PutReg(s.regs, i.rd, 0), Wrap(s.pc + 3), s.mem)
  {
    hide Imm, Exec, MicroExec.Stored, Wrap;
    ZeroOperands(NewInst(s.pc), s);
    var z := ScResult(i, wide, s.pc);
    assert DirectA(s, z) == Some(0) && DirectB(s, z) == Some(0);
    ExecDirect(prims, z, s, 0, 0);
    StoreToReg(Called(s, CopyB, 0, 0), z, i.rd);
  }
}
