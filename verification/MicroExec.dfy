/** What one micro-instruction does to the machine state, by the shape of its operands. */
module MicroExec {
  import opened Words
  import opened Wrappers
  import opened MemoryModel
  import opened ZiskInst
  import opened ZiskOps
  import opened Machine

  /** The part of a step that follows the fetch. */
  function Exec(prims: Prims, i: Inst, s: State): Option<State> {
    var s1 :- SourceA(s, i);
    Rest(prims, i, s1)
  }

  lemma StepIsExec(p: Platform, s: State, i: Inst)
    requires GetInstruction(p.rom, s.pc) == Some(i)
    ensures Step(p, s) == Exec(p.prims, i, s)
  {
    hide GetInstruction, SourceA, Rest;
  }

  // ---- operands ----

  /** A register as an operand: register 0 is the constant 0. */
  function Reg(s: State, k: nat): u64
    requires k < 32
  {
    if k == 0 then 0 else s.regs[k]
  }

  lemma ImmZero()
    ensures Imm(0, 0) == 0
  {
    ImmJoin(0);
  }

  /** Splitting an immediate in two halves loses nothing. */
  lemma ImmJoin(v: u64)
    ensures Imm(Low32(v), High32(v)) == v
  {
    Pow2Values();
    Pow2Add(32, 32);
    OrDisjoint(BITS, 32, Low32(v), High32(v));
    assert v == v / 0x1_0000_0000 * 0x1_0000_0000 + v % 0x1_0000_0000;
    hide BitOp, Pow2;
  }

  lemma RegisterA(i: Inst, k: nat, s: State)
    requires k < 32
    ensures DirectA(s, i.SrcA(AReg, k, false)) == Some(Reg(s, k)) && !i.SrcA(AReg, k, false).aSrc.SrcMem?
  {
    hide Imm;
    ImmZero();
  }

  lemma RegisterB(i: Inst, k: nat, s: State)
    requires k < 32
    ensures DirectB(s, i.SrcB(BReg, k, false)) == Some(Reg(s, k)) && !MemoryB(i.SrcB(BReg, k, false))
  {
    hide Imm;
    ImmZero();
  }

  lemma ImmediateA(i: Inst, v: u64, s: State)
    ensures DirectA(s, i.SrcA(AImm, v, false)) == Some(v) && !i.SrcA(AImm, v, false).aSrc.SrcMem?
  {
    hide Imm;
    ImmJoin(v);
  }

  lemma ImmediateB(i: Inst, v: u64, s: State)
    ensures DirectB(s, i.SrcB(BImm, v, false)) == Some(v) && !MemoryB(i.SrcB(BImm, v, false))
  {
    hide Imm;
    ImmJoin(v);
  }

  /** The step counter as operand a. */
  lemma StepA(i: Inst, s: State)
    ensures DirectA(s, i.SrcA(AStep, 0, false)) == Some(s.step % 0x1_0000_0000_0000_0000)
  {
  }

  /** The addresses of operands and results in memory: a fixed address, to which the stack pointer is
      added on request and, for indirect ones, operand a. */
  lemma Addresses(i: Inst, addr: u64, useSp: bool, s: State)
    ensures var sp := if useSp then s.sp else 0;
            && AddrA(s, i.SrcA(AMem, addr, useSp)) == Residue64(addr + sp)
            && AddrB(s, i.SrcB(BMem, addr, useSp)) == Residue64(addr + sp)
            && AddrB(s, i.SrcB(BInd, addr, useSp)) == Residue64(Residue64(s.a + addr) + sp)
  {
    WrapValue(addr + s.sp);
    WrapValue(s.a + addr);
    WrapValue(Wrap(s.a + addr) + s.sp);
    hide Wrap, Residue64;
    Residue64Small(addr);
    Residue64Small(Wrap(s.a + addr));
  }

  lemma StoreAddresses(i: Inst, offset: i64, useSp: bool, ra: bool, s: State)
    ensures var sp := if useSp then s.sp else 0;
            && StoreAddr(s, i.StoreTo(TMem, offset, useSp, ra)) == Residue64(offset + sp)
            && StoreAddr(s, i.StoreTo(TInd, offset, useSp, ra)) == Residue64(offset + sp + s.a)
  {
    WrapValue(offset + (if useSp then s.sp else 0));
    WrapValue(offset + (if useSp then s.sp else 0) + s.a);
    hide Wrap, Residue64;
  }

  /** Residues modulo 2^64. */
  function Residue64(x: int): u64 {
    x % 0x1_0000_0000_0000_0000
  }

  lemma WrapValue(x: int)
    ensures Wrap(x) == Residue64(x)
  {
  }

  lemma Residue64Small(x: u64)
    ensures Residue64(x) == x
  {
  }

  // ---- results ----

  /** The state after the operation. */
  function Called(s: State, op: Op, a: u64, b: u64): State
    requires IsAlu(op)
  {
    s.(a := a, b := b, c := Alu(op, a, b).0, flag := Alu(op, a, b).1)
  }

  /** Both operands are registers, immediates or c. */
  lemma ExecDirect(prims: Prims, i: Inst, s: State, a: u64, b: u64)
    requires IsAlu(i.op)
    requires !i.aSrc.SrcMem? && DirectA(s, i) == Some(a)
    requires !MemoryB(i) && DirectB(s, i) == Some(b)
    ensures Exec(prims, i, s) == Stored(Called(s, i.op, a, b), i)
  {
    hide Alu, Imm, StoreC, Finish;
    assert DirectB(s.(a := a), i) == DirectB(s, i);
    CallAlu(prims, i.op, s.(a := a, b := b));
  }

  /** Operand b comes from memory. */
  lemma ExecLoad(prims: Prims, i: Inst, s: State, a: u64, v: Option<u64>)
    requires IsAlu(i.op)
    requires !i.aSrc.SrcMem? && DirectA(s, i) == Some(a)
    requires MemoryB(i) && Read(s.mem, AddrB(s.(a := a), i), WidthB(i)) == v
    ensures v.None? ==> Exec(prims, i, s).None?
    ensures v.Some? ==> Exec(prims, i, s) == Stored(Called(s, i.op, a, v.value), i)
  {
    hide Alu, Imm, StoreC, Finish, Read, AddrB, WidthB;
    if v.Some? {
      CallAlu(prims, i.op, s.(a := a, b := v.value));
    }
  }

  lemma CallAlu(prims: Prims, op: Op, s: State)
    requires IsAlu(op)
    ensures Call(prims, op, s) == Some(Called(s, op, s.a, s.b))
  {
    hide Alu, Precompile, OpcFcallParam, OpcFcall, OpcFcallGet;
  }

  /** The rest of a step, once the operation is done. */
  function Stored(s: State, i: Inst): Option<State> {
    var t :- StoreC(s, i);
    Some(Finish(t, i))
  }

  function PutReg(regs: Words32, rd: nat, v: u64): Words32
    requires rd < 32
  {
    if rd == 0 then regs else regs[rd := v]
  }

  /** What a micro-instruction changed, as far as programs can see. */
  ghost predicate Reaches(r: Option<State>, regs: Words32, pc: u64, m: Memory) {
    r.Some? && r.value.regs == regs && r.value.pc == pc && r.value.mem == m
  }

  /** An instruction that stores c in register rd, where 0 discards it. */
  ghost predicate PutsReg(i: Inst, rd: nat) {
    if rd == 0 then i.store.StoreNone? else i.store.StoreReg? && i.storeOffset == rd
  }

  lemma StoreToReg(s: State, i: Inst, rd: nat)
    requires rd < 32 && PutsReg(i, rd)
    ensures Reaches(Stored(s, i), PutReg(s.regs, rd, ValueToStore(s, i)), NextPc(s, i), s.mem)
    ensures Stored(s, i).value.c == s.c
  {
    hide ValueToStore;
    if rd != 0 {
      assert StoreC(s, i) == Some(s.(regs := s.regs[rd := ValueToStore(s, i)]));
      SameNext(s, StoreC(s, i).value, i);
    }
  }

  lemma SameNext(s: State, t: State, i: Inst)
    requires s.c == t.c && s.flag == t.flag && s.pc == t.pc
    ensures NextPc(s, i) == NextPc(t, i)
  {
  }

  lemma StoreToMem(s: State, i: Inst, m: Option<Memory>)
    requires StoresToMemory(i) && Write(s.mem, StoreAddr(s, i), ValueToStore(s, i), StoreWidth(i)) == m
    ensures m.None? ==> Stored(s, i).None?
    ensures m.Some? ==> Reaches(Stored(s, i), s.regs, NextPc(s, i), m.value) && Stored(s, i).value.c == s.c
  {
    hide Write, StoreAddr, ValueToStore;
    if m.Some? {
      SameNext(s, s.(mem := m.value), i);
    }
  }

  /** The last component of an instruction is bookkeeping of the fetch index. */
  predicate SameInst(i: Inst, j: Inst) {
    i.(sortedPcListIndex := 0) == j.(sortedPcListIndex := 0)
  }

  lemma SameExec(prims: Prims, i: Inst, j: Inst, s: State)
    requires SameInst(i, j)
    ensures Exec(prims, i, s) == Exec(prims, j, s)
  {
    SameFields(i, j);
    SameSources(i, j, s);
    hide SourceA, SourceB, StoreC, Finish, SameInst, Call;
    if SourceA(s, i).Some? {
      var s1 := SourceA(s, i).value;
      SameSources(i, j, s1);
      if SourceB(s1, i).Some? {
        var s2 := SourceB(s1, i).value;
        if Call(prims, i.op, s2).Some? {
          var s3 := Call(prims, i.op, s2).value;
          SameStore(i, j, s3);
          if StoreC(s3, i).Some? {
            SameFinish(i, j, StoreC(s3, i).value);
          }
        }
      }
    }
  }

  lemma SameFields(i: Inst, j: Inst)
    requires SameInst(i, j)
    ensures i.op == j.op
  {
    assert i.(sortedPcListIndex := 0).op == i.op;
  }

  lemma SameSources(i: Inst, j: Inst, s: State)
    requires SameInst(i, j)
    ensures SourceA(s, i) == SourceA(s, j) && SourceB(s, i) == SourceB(s, j)
  {
    hide Read, Imm;
    var i0, j0 := i.(sortedPcListIndex := 0), j.(sortedPcListIndex := 0);
    assert SourceA(s, i) == SourceA(s, i0) && SourceB(s, i) == SourceB(s, i0);
    assert SourceA(s, j) == SourceA(s, j0) && SourceB(s, j) == SourceB(s, j0);
  }

  lemma SameStore(i: Inst, j: Inst, s: State)
    requires SameInst(i, j)
    ensures StoreC(s, i) == StoreC(s, j)
  {
    hide Write;
    assert StoreC(s, i) == StoreC(s, i.(sortedPcListIndex := 0));
    assert StoreC(s, j) == StoreC(s, j.(sortedPcListIndex := 0));
  }

  lemma SameFinish(i: Inst, j: Inst, s: State)
    requires SameInst(i, j)
    ensures Finish(s, i) == Finish(s, j)
  {
    assert Finish(s, i) == Finish(s, i.(sortedPcListIndex := 0));
    assert Finish(s, j) == Finish(s, j.(sortedPcListIndex := 0));
  }
}
