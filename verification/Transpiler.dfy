/** From decoded RISC-V instructions to Zisk micro-instructions, stored by address. */
module Transpiler {
  import opened Words
  import opened Wrappers
  import opened MemoryModel
  import opened ZiskInst
  import opened Riscv
  import opened RiscvOps

  /** The register that atomic instructions use as a temporary; it lives in memory. */
  const TEMP_REG := 32
  const CSR_ADDR: u64 := SYS_ADDR + 0x8000
  const MTVEC: u64 := CSR_ADDR + 0x305

  type Insts = map<u64, Inst>

  /** Nothing outside [from, to) was added or replaced. */
  ghost predicate OnlyWithin(before: Insts, after: Insts, from: int, to: int) {
    forall a :: a < from || to <= a ==> (a in before <==> a in after) && (a in before ==> before[a] == after[a])
  }

  // ---- the micro-instructions, by instruction format ----

  /** An immediate as the 64-bit word that `as u64` makes of it. */
  function Imm64(imm: i32): u64 {
    Wrap(imm)
  }

  function RegisterOp(i: RvInst, op: Op, s: u64): Inst {
    NewInst(s).SrcA(AReg, i.rs1, false).SrcB(BReg, i.rs2, false).WithOp(op).StoreTo(TReg, i.rd, false, false).J(4, 4)
  }

  function ImmediateOp(i: RvInst, op: Op, s: u64): Inst {
    NewInst(s).SrcA(AReg, i.rs1, false).SrcB(BImm, Imm64(i.imm), false).WithOp(op).StoreTo(TReg, i.rd, false, false).J(4, 4)
  }

  function BranchOp(i: RvInst, op: Op, neg: bool, s: u64): Inst {
    NewInst(s).SrcA(AReg, i.rs1, false).SrcB(BReg, i.rs2, false).WithOp(op)
    .J(if neg then 4 else i.imm, if neg then i.imm else 4)
  }

  function Nop(s: u64): Inst {
    NewInst(s).SrcA(AImm, 0, false).SrcB(BImm, 0, false).WithOp(Flag).J(4, 4)
  }

  function LoadInst(i: RvInst, op: Op, w: nat, s: u64): Inst
    requires ValidWidth(w)
  {
    NewInst(s).SrcA(AReg, i.rs1, false).IndWidth(w).SrcB(BInd, Imm64(i.imm), false).WithOp(op)
    .StoreTo(TReg, i.rd, false, false).J(4, 4)
  }

  function StoreInst(i: RvInst, w: nat, s: u64): Inst
    requires ValidWidth(w)
  {
    NewInst(s).SrcA(AReg, i.rs1, false).SrcB(BReg, i.rs2, false).WithOp(CopyB).IndWidth(w)
    .StoreTo(TInd, i.imm, false, false).J(4, 4)
  }

  function LuiInst(i: RvInst, s: u64): Inst {
    NewInst(s).SrcA(AImm, 0, false).SrcB(BImm, Imm64(i.imm), false).WithOp(CopyB).StoreTo(TReg, i.rd, false, false).J(4, 4)
  }

  function AuipcInst(i: RvInst, s: u64): Inst {
    NewInst(s).SrcA(AImm, 0, false).SrcB(BImm, 0, false).WithOp(Flag).StoreRa(TReg, i.rd, false).J(4, i.imm)
  }

  function JalInst(i: RvInst, s: u64): Inst {
    NewInst(s).SrcA(AImm, 0, false).SrcB(BImm, 0, false).WithOp(Flag).StoreRa(TReg, i.rd, false).J(i.imm, 4)
  }

  /** jalr with an offset that keeps 4-alignment: the jump masks rs1 and adds the offset. */
  function JalrAligned(i: RvInst, s: u64): Inst {
    NewInst(s).SrcA(AImm, 0xFFFF_FFFF_FFFF_FFFC, false).SrcB(BReg, i.rs1, false).WithOp(OpAnd).WithSetPc()
    .StoreRa(TReg, i.rd, false).J(i.imm, 4)
  }

  /** Otherwise a first part adds the offset, and a second part masks the sum. */
  function JalrFirst(i: RvInst, s: u64): Inst {
    NewInst(s).SrcA(AImm, Imm64(i.imm), false).SrcB(BReg, i.rs1, false).WithOp(Add).J(1, 1)
  }

  function JalrSecond(i: RvInst, s: u64): Inst {
    NewInst(s).SrcA(AImm, 0xFFFF_FFFF_FFFF_FFFC, false).SrcB(BLastC, 0, false).WithOp(OpAnd).WithSetPc()
    .StoreRa(TReg, i.rd, false).J(0, 3)
  }

  function EcallInst(s: u64): Inst {
    NewInst(s).SrcA(AImm, 0, false).SrcB(BMem, MTVEC, false).WithOp(CopyB).StoreRa(TReg, 1, false).WithSetPc().J(0, 4)
  }

  /** The first part of an atomic instruction: loads into register dst. */
  function AtomicLoad(i: RvInst, wide: bool, dst: nat, s: u64): Inst
    requires dst <= 32
  {
    NewInst(s).SrcA(AReg, i.rs1, false).IndWidth(ZiskAtomicWidth(wide)).SrcB(BInd, 0, false).WithOp(LoadZisk(LoadOf(wide)))
    .StoreTo(TReg, dst, false, false).J(1, 1)
  }

  /** The second part combines the loaded value with rs2. */
  function AtomicCombine(i: RvInst, op: Op, s: u64): Inst {
    NewInst(s).SrcA(ALastC, 0, false).SrcB(BReg, i.rs2, false).WithOp(op).J(1, 1)
  }

  /** The third part stores the result and continues j further. */
  function AtomicStore(i: RvInst, wide: bool, j: i32, s: u64): Inst {
    NewInst(s).SrcA(AReg, i.rs1, false).IndWidth(ZiskAtomicWidth(wide)).SrcB(BLastC, 0, false).WithOp(CopyB)
    .StoreTo(TInd, 0, false, false).J(j, j)
  }

  /** Copies the temporary to rd. */
  function CopyTemp(i: RvInst, j: i32, s: u64): Inst {
    NewInst(s).SrcA(AImm, 0, false).SrcB(BReg, TEMP_REG, false).WithOp(CopyB).StoreTo(TReg, i.rd, false, false).J(j, j)
  }

  /** Stores rs2 at the address in rs1: the second part of a swap, the first of a store-conditional. */
  function StoreRs2(i: RvInst, wide: bool, j: i32, s: u64): Inst {
    NewInst(s).SrcA(AReg, i.rs1, false).SrcB(BReg, i.rs2, false).WithOp(CopyB).IndWidth(ZiskAtomicWidth(wide))
    .StoreTo(TInd, 0, false, false).J(j, j)
  }

  /** The result of a store-conditional: always 0, for success. */
  function ScResult(i: RvInst, wide: bool, s: u64): Inst {
    var zib := NewInst(s).SrcA(AImm, 0, false).SrcB(BImm, 0, false).WithOp(CopyB);
    (if wide then zib else zib.IndWidth(4)).StoreTo(TReg, i.rd, false, false).J(3, 3)
  }

  /** rd is read again after it would be written, so the loaded value has to wait. */
  predicate Overlaps(i: RvInst) {
    i.rd == i.rs1 || i.rd == i.rs2
  }

  function AtomicOp(i: RvInst, f: AmoOp, wide: bool, s: u64): Insts
    requires s + 4 < 0x1_0000_0000_0000_0000
  {
    if !Overlaps(i) then
      map[s := AtomicLoad(i, wide, i.rd, s), s + 1 := AtomicCombine(i, AmoZisk(f, wide), s + 1),
          s + 2 := AtomicStore(i, wide, 2, s + 2)]
    else
      map[s := AtomicLoad(i, wide, TEMP_REG, s), s + 1 := AtomicCombine(i, AmoZisk(f, wide), s + 1),
          s + 2 := AtomicStore(i, wide, 1, s + 2), s + 3 := CopyTemp(i, 1, s + 3)]
  }

  function AtomicSwap(i: RvInst, wide: bool, s: u64): Insts
    requires s + 4 < 0x1_0000_0000_0000_0000
  {
    if !Overlaps(i) then
      map[s := AtomicLoad(i, wide, i.rd, s), s + 1 := StoreRs2(i, wide, 3, s + 1)]
    else
      map[s := AtomicLoad(i, wide, TEMP_REG, s), s + 1 := StoreRs2(i, wide, 1, s + 1), s + 2 := CopyTemp(i, 2, s + 2)]
  }

  function StoreConditional(i: RvInst, wide: bool, s: u64): Insts
    requires s + 4 < 0x1_0000_0000_0000_0000
  {
    if i.rd > 0 then map[s := StoreRs2(i, wide, 1, s), s + 1 := ScResult(i, wide, s + 1)]
    else map[s := StoreRs2(i, wide, 4, s)]
  }

  /** The comparison of a branch, and whether the branch is taken when it fails. */
  function BranchTest(cond: Cond): (Op, bool) {
    match cond
    case BEQ => (Op.Eq, false)
    case BNE => (Op.Eq, true)
    case BLT => (Op.Lt, false)
    case BGE => (Op.Lt, true)
    case BLTU => (Op.Ltu, false)
    case BGEU => (Op.Ltu, true)
  }

  /** Operations with x0 and an immediate that are just a copy of the immediate. */
  predicate CopyWithX0(f: AluOp) {
    f.ADD? || f.XOR? || f.OR?
  }

  /** The micro-instructions of an instruction at address s, by address. None: convert panics. */
  function MicroOps(i: RvInst, s: u64): Option<Insts>
    requires s + 4 < 0x1_0000_0000_0000_0000
  {
    match i.op
    case Load(load) => Some(map[s := LoadInst(i, LoadZisk(load), ZiskLoadWidth(load), s)])
    case Store(store) => Some(map[s := StoreInst(i, ZiskStoreWidth(store), s)])
    case OpReg(f) => Some(map[s := RegisterOp(i, ZiskOp(f), s)])
    case OpImm(f) =>
      if !HasImmForm(f) then None
      else Some(map[s := ImmediateOp(i, if CopyWithX0(f) && i.rs1 == 0 then CopyB else ZiskOp(f), s)])
    case Lui => Some(map[s := LuiInst(i, s)])
    case Auipc => Some(map[s := AuipcInst(i, s)])
    case Jal => Some(map[s := JalInst(i, s)])
    case Jalr =>
      Some(if i.imm % 4 == 0 then map[s := JalrAligned(i, s)]
           else map[s := JalrFirst(i, s), s + 1 := JalrSecond(i, s + 1)])
    case Branch(cond) => Some(map[s := BranchOp(i, BranchTest(cond).0, BranchTest(cond).1, s)])
    case Amo(f, wide) => Some(if f.SWAP? then AtomicSwap(i, wide, s) else AtomicOp(i, f, wide, s))
    case Lr(wide) => Some(map[s := LoadInst(i, LoadZisk(LoadOf(wide)), ZiskAtomicWidth(wide), s)])
    case Sc(wide) => Some(StoreConditional(i, wide, s))
    case Fence => Some(map[s := Nop(s)])
    case FenceI => Some(map[s := Nop(s)])
    case Ebreak => Some(map[s := Nop(s)])
    case Ecall => Some(map[s := EcallInst(s)])
  }

  /** All micro-instructions of an instruction lie in its four addresses, the first at its own. */
  lemma MicroOpsPlace(i: RvInst, s: u64)
    requires s + 4 < 0x1_0000_0000_0000_0000 && MicroOps(i, s).Some?
    ensures s in MicroOps(i, s).value
    ensures forall k :: k in MicroOps(i, s).value ==> s <= k < s + 4
  {
    hide LoadInst, StoreInst, RegisterOp, ImmediateOp, LuiInst, AuipcInst, JalInst, JalrAligned, JalrFirst, JalrSecond,
      BranchOp, Nop, EcallInst, AtomicLoad, AtomicCombine, AtomicStore, CopyTemp, StoreRs2, ScResult, BranchTest;
  }

  /** A built instruction: it knows its address, has a function, ends a run only in place, and has
      main registers for register operands. */
  predicate Built(i: Inst, s: u64) {
    i.paddr == s && !i.op.NoFunc? && (i.end ==> IsLast(i)) && UsesMainRegs(i)
  }

  /** Instructions as the builder makes them, each stored at the address it knows. */
  ghost predicate Genuine(insts: Insts) {
    forall k :: k in insts ==> Built(insts[k], k)
  }

  lemma RegisterBuilt(i: RvInst, op: Op, s: u64)
    requires !op.NoFunc?
    ensures Built(RegisterOp(i, op, s), s)
  {
    hide Wrap, Low32, High32;
  }

  lemma ImmediateBuilt(i: RvInst, op: Op, s: u64)
    requires !op.NoFunc?
    ensures Built(ImmediateOp(i, op, s), s)
  {
    hide Wrap, Low32, High32;
  }

  lemma BranchBuilt(i: RvInst, op: Op, neg: bool, s: u64)
    requires !op.NoFunc?
    ensures Built(BranchOp(i, op, neg, s), s)
  {
    hide Wrap, Low32, High32;
  }

  lemma ConstantBuilt(i: RvInst, s: u64)
    ensures Built(LuiInst(i, s), s) && Built(AuipcInst(i, s), s) && Built(JalInst(i, s), s) && Built(Nop(s), s)
  {
    hide Wrap, Low32, High32;
  }

  lemma JumpBuilt(i: RvInst, s: u64)
    ensures Built(JalrAligned(i, s), s)
  {
    hide Wrap, Low32, High32;
  }

  lemma SplitJumpBuilt(i: RvInst, s: u64)
    ensures Built(JalrFirst(i, s), s) && Built(JalrSecond(i, s), s)
  {
    hide Wrap, Low32, High32;
  }

  lemma EcallBuilt(s: u64)
    ensures Built(EcallInst(s), s)
  {
    hide Wrap, Low32, High32;
  }

  lemma LoadBuilt(i: RvInst, load: LoadOp, w: nat, s: u64)
    requires ValidWidth(w)
    ensures Built(LoadInst(i, LoadZisk(load), w, s), s)
  {
    hide Wrap, Low32, High32;
  }

  lemma StoreBuilt(i: RvInst, w: nat, s: u64)
    requires ValidWidth(w)
    ensures Built(StoreInst(i, w, s), s)
  {
    hide Wrap, Low32, High32;
  }

  lemma AtomicBuilt(i: RvInst, f: AmoOp, wide: bool, dst: nat, j: i32, s: u64)
    requires dst <= 32
    ensures Built(AtomicLoad(i, wide, dst, s), s) && Built(AtomicCombine(i, AmoZisk(f, wide), s), s)
    ensures Built(AtomicStore(i, wide, j, s), s)
  {
    hide AtomicLoad, AtomicCombine, AtomicStore, Built;
    AtomicLoadBuilt(i, wide, dst, s);
    AtomicCombineBuilt(i, f, wide, s);
    AtomicStoreBuilt(i, wide, j, s);
  }

  lemma AtomicLoadBuilt(i: RvInst, wide: bool, dst: nat, s: u64)
    requires dst <= 32
    ensures Built(AtomicLoad(i, wide, dst, s), s)
  {
    hide Wrap, Low32, High32;
  }

  lemma AtomicCombineBuilt(i: RvInst, f: AmoOp, wide: bool, s: u64)
    ensures Built(AtomicCombine(i, AmoZisk(f, wide), s), s)
  {
    hide Wrap, Low32, High32;
  }

  lemma AtomicStoreBuilt(i: RvInst, wide: bool, j: i32, s: u64)
    ensures Built(AtomicStore(i, wide, j, s), s)
  {
    hide Wrap, Low32, High32;
  }

  lemma AtomicRestBuilt(i: RvInst, wide: bool, j: i32, s: u64)
    ensures Built(CopyTemp(i, j, s), s) && Built(StoreRs2(i, wide, j, s), s) && Built(ScResult(i, wide, s), s)
  {
    hide CopyTemp, StoreRs2, ScResult, Built;
    CopyTempBuilt(i, j, s);
    StoreRs2Built(i, wide, j, s);
    ScResultBuilt(i, wide, s);
  }

  lemma CopyTempBuilt(i: RvInst, j: i32, s: u64)
    ensures Built(CopyTemp(i, j, s), s)
  {
    hide Wrap, Low32, High32;
  }

  lemma StoreRs2Built(i: RvInst, wide: bool, j: i32, s: u64)
    ensures Built(StoreRs2(i, wide, j, s), s)
  {
    hide Wrap, Low32, High32;
  }

  lemma ScResultBuilt(i: RvInst, wide: bool, s: u64)
    ensures Built(ScResult(i, wide, s), s)
  {
    hide Wrap, Low32, High32;
  }

  lemma AtomicOpBuilt(i: RvInst, f: AmoOp, wide: bool, s: u64)
    requires s + 4 < 0x1_0000_0000_0000_0000
    ensures forall a :: a in AtomicOp(i, f, wide, s) ==> Built(AtomicOp(i, f, wide, s)[a], a)
    ensures forall a :: a in AtomicSwap(i, wide, s) ==> Built(AtomicSwap(i, wide, s)[a], a)
    ensures forall a :: a in StoreConditional(i, wide, s) ==> Built(StoreConditional(i, wide, s)[a], a)
  {
    hide AtomicLoad, AtomicCombine, AtomicStore, CopyTemp, StoreRs2, ScResult, Built;
    AtomicBuilt(i, f, wide, i.rd, 2, s);
    AtomicBuilt(i, f, wide, TEMP_REG, 2, s);
    AtomicBuilt(i, f, wide, i.rd, 2, s + 1);
    AtomicBuilt(i, f, wide, i.rd, 2, s + 2);
    AtomicBuilt(i, f, wide, i.rd, 1, s + 2);
    AtomicRestBuilt(i, wide, 1, s + 3);
    AtomicRestBuilt(i, wide, 3, s + 1);
    AtomicRestBuilt(i, wide, 1, s + 1);
    AtomicRestBuilt(i, wide, 2, s + 2);
    AtomicRestBuilt(i, wide, 1, s);
    AtomicRestBuilt(i, wide, 4, s);
  }

  /** Every micro-instruction is built for the address it is stored at. */
  lemma MicroOpsBuilt(i: RvInst, s: u64)
    requires s + 4 < 0x1_0000_0000_0000_0000 && MicroOps(i, s).Some?
    ensures forall a :: a in MicroOps(i, s).value ==> Built(MicroOps(i, s).value[a], a)
  {
    hide LoadInst, StoreInst, RegisterOp, ImmediateOp, LuiInst, AuipcInst, JalInst, JalrAligned, JalrFirst, JalrSecond,
      BranchOp, Nop, EcallInst, AtomicOp, AtomicSwap, StoreConditional, BranchTest, Built, ZiskOp, LoadZisk;
    match i.op
    case Load(load) => LoadBuilt(i, load, ZiskLoadWidth(load), s);
    case Store(store) => StoreBuilt(i, ZiskStoreWidth(store), s);
    case Lr(wide) => LoadBuilt(i, LoadOf(wide), ZiskAtomicWidth(wide), s);
    case OpReg(f) =>
      HasFunction(f);
      RegisterBuilt(i, ZiskOp(f), s);
    case OpImm(f) =>
      HasFunction(f);
      ImmediateBuilt(i, if CopyWithX0(f) && i.rs1 == 0 then CopyB else ZiskOp(f), s);
    case Branch(cond) =>
      TestHasFunction(cond);
      BranchBuilt(i, BranchTest(cond).0, BranchTest(cond).1, s);
    case Jalr =>
      JumpBuilt(i, s);
      SplitJumpBuilt(i, s);
      SplitJumpBuilt(i, s + 1);
    case Ecall => EcallBuilt(s);
    case Amo(f, wide) => AtomicOpBuilt(i, f, wide, s);
    case Sc(wide) => AtomicOpBuilt(i, SWAP, wide, s);
    case _ => ConstantBuilt(i, s);
  }

  lemma GenuineMore(insts: Insts, i: RvInst, s: u64)
    requires Genuine(insts) && s + 4 < 0x1_0000_0000_0000_0000 && MicroOps(i, s).Some?
    ensures Genuine(insts + MicroOps(i, s).value)
  {
    MicroOpsBuilt(i, s);
    hide MicroOps, Built;
  }

  lemma HasFunction(f: AluOp)
    ensures !ZiskOp(f).NoFunc?
  {
  }

  lemma TestHasFunction(cond: Cond)
    ensures !BranchTest(cond).0.NoFunc?
  {
  }

  // ---- the builder ----

  /** Builds one instruction by setting its attributes. */
  class ZiskInstBuilder {
    var i: Inst

    constructor (paddr: u64)
      ensures i == NewInst(paddr)
    {
      i := NewInst(paddr);
    }

    /** The two 32-bit halves of a number, low half first. */
    static method Nto32s(n: u64) returns (low: u32, high: u32)
      ensures low == Low32(n) && high == High32(n)
    {
      low, high := n % 0x1_0000_0000, n / 0x1_0000_0000;
    }

    method SrcA(srcInput: ASource, offsetImmRegInput: u64, useSp: bool)
      modifies this
      ensures i == old(i).SrcA(srcInput, offsetImmRegInput, useSp)
    {
      var src, offsetImmReg := srcInput, offsetImmRegInput;
      if src == AReg {
        if offsetImmReg == 0 {
          src := AImm;
        } else if offsetImmReg < REGS_IN_MAIN_FROM || offsetImmReg > REGS_IN_MAIN_TO {
          src := AMem;
          offsetImmReg := Wrap(REG_FIRST + offsetImmReg * 8);
        }
      }
      match src {
        case AReg => i := i.(aSrc := SrcReg, aUseSpImm1 := if useSp then 1 else 0, aOffsetImm0 := offsetImmReg);
        case AMem => i := i.(aSrc := SrcMem, aUseSpImm1 := if useSp then 1 else 0, aOffsetImm0 := offsetImmReg);
        case AImm =>
          var v0, v1 := Nto32s(offsetImmReg);
          i := i.(aSrc := SrcImm, aUseSpImm1 := v1, aOffsetImm0 := v0);
        case ALastC => i := i.(aSrc := SrcC, aUseSpImm1 := 0, aOffsetImm0 := 0);
        case AStep => i := i.(aSrc := SrcStep, aUseSpImm1 := 0, aOffsetImm0 := 0);
      }
    }

    method SrcB(srcInput: BSource, offsetImmRegInput: u64, useSp: bool)
      modifies this
      ensures i == old(i).SrcB(srcInput, offsetImmRegInput, useSp)
    {
      var src, offsetImmReg := srcInput, offsetImmRegInput;
      if src == BReg {
        if offsetImmReg == 0 {
          src := BImm;
        } else if offsetImmReg < REGS_IN_MAIN_FROM || offsetImmReg > REGS_IN_MAIN_TO {
          src := BMem;
          offsetImmReg := Wrap(REG_FIRST + offsetImmReg * 8);
        }
      }
      match src {
        case BReg => i := i.(bSrc := SrcReg, bUseSpImm1 := if useSp then 1 else 0, bOffsetImm0 := offsetImmReg);
        case BMem => i := i.(bSrc := SrcMem, bUseSpImm1 := if useSp then 1 else 0, bOffsetImm0 := offsetImmReg);
        case BInd => i := i.(bSrc := SrcInd, bUseSpImm1 := if useSp then 1 else 0, bOffsetImm0 := offsetImmReg);
        case BImm =>
          var v0, v1 := Nto32s(offsetImmReg);
          i := i.(bSrc := SrcImm, bUseSpImm1 := v1, bOffsetImm0 := v0);
        case BLastC => i := i.(bSrc := SrcC, bUseSpImm1 := 0, bOffsetImm0 := 0);
      }
    }

    method Store(dstInput: Target, offsetInput: i64, useSp: bool, storeRa: bool)
      requires dstInput.TReg? ==> -0x1_0000 <= offsetInput < 0x1_0000
      modifies this
      ensures i == old(i).StoreTo(dstInput, offsetInput, useSp, storeRa)
    {
      var dst, offset := dstInput, offsetInput;
      if dst == TReg {
        if offset == 0 {
          return;
        } else if offset < REGS_IN_MAIN_FROM || offset > REGS_IN_MAIN_TO {
          dst := TMem;
          offset := REG_FIRST + offset * 8;
        }
      }
      var stored := match dst case TReg => StoreReg case TMem => StoreMem case TInd => StoreInd case TNone => StoreNone;
      i := i.(storeRa := storeRa, store := stored);
      if stored == StoreReg || stored == StoreMem || stored == StoreInd {
        i := i.(storeUseSp := useSp, storeOffset := offset);
      } else {
        i := i.(storeUseSp := false, storeOffset := 0);
      }
    }

    method StoreRa(dst: Target, offset: i64, useSp: bool)
      requires dst.TReg? ==> -0x1_0000 <= offset < 0x1_0000
      modifies this
      ensures i == old(i).StoreRa(dst, offset, useSp)
    {
      Store(dst, offset, useSp, true);
    }

    method SetPc()
      modifies this
      ensures i == old(i).WithSetPc()
    {
      i := i.(setPc := true);
    }

    method SetOp(op: Op)
      modifies this
      ensures i == old(i).WithOp(op)
    {
      i := i.(op := op);
    }

    method J(j1: i32, j2: i32)
      modifies this
      ensures i == old(i).J(j1, j2)
    {
      i := i.(jmpOffset1 := j1, jmpOffset2 := j2);
    }

    method IndWidth(w: nat)
      requires ValidWidth(w)
      modifies this
      ensures i == old(i).IndWidth(w)
    {
      i := i.(indWidth := w);
    }

    method End()
      modifies this
      ensures i == old(i).WithEnd()
    {
      i := i.(end := true);
    }
  }

  // ---- the context ----

  /** The next address to assign, and the instructions stored so far. */
  class Riscv2ZiskContext {
    var s: nat
    var insts: Insts

    constructor (s: nat, insts: Insts)
      ensures this.s == s && this.insts == insts
    {
      this.s, this.insts := s, insts;
    }

    /** There is room for one more RISC-V instruction below 2^64. */
    predicate Room()
      reads this`s
    {
      s + 4 < 0x1_0000_0000_0000_0000
    }

    method Insert(zib: ZiskInstBuilder, step: nat)
      requires s < 0x1_0000_0000_0000_0000
      modifies this
      ensures s == old(s) + step && insts == old(insts)[old(s) := zib.i]
    {
      insts := insts[s := zib.i];
      s := s + step;
    }

    method CreateRegisterOp(i: RvInst, op: Op)
      requires Room()
      modifies this
      ensures s == old(s) + 4 && insts == old(insts) + map[old(s) := RegisterOp(i, op, old(s))]
    {
      var zib := new ZiskInstBuilder(s);
      zib.SrcA(AReg, i.rs1, false);
      zib.SrcB(BReg, i.rs2, false);
      zib.SetOp(op);
      zib.Store(TReg, i.rd, false, false);
      zib.J(4, 4);
      Insert(zib, 4);
    }

    method CreateBranchOp(i: RvInst, op: Op, neg: bool)
      requires Room()
      modifies this
      ensures s == old(s) + 4 && insts == old(insts) + map[old(s) := BranchOp(i, op, neg, old(s))]
    {
      var zib := new ZiskInstBuilder(s);
      zib.SrcA(AReg, i.rs1, false);
      zib.SrcB(BReg, i.rs2, false);
      zib.SetOp(op);
      if neg {
        zib.J(4, i.imm);
      } else {
        zib.J(i.imm, 4);
      }
      Insert(zib, 4);
    }

    method NopOp()
      requires Room()
      modifies this
      ensures s == old(s) + 4 && insts == old(insts) + map[old(s) := Nop(old(s))]
    {
      var zib := new ZiskInstBuilder(s);
      zib.SrcA(AImm, 0, false);
      zib.SrcB(BImm, 0, false);
      zib.SetOp(Flag);
      zib.J(4, 4);
      Insert(zib, 4);
    }

    method LoadOp(i: RvInst, op: Op, w: nat)
      requires Room() && ValidWidth(w)
      modifies this
      ensures s == old(s) + 4 && insts == old(insts) + map[old(s) := LoadInst(i, op, w, old(s))]
    {
      var zib := new ZiskInstBuilder(s);
      zib.SrcA(AReg, i.rs1, false);
      zib.IndWidth(w);
      zib.SrcB(BInd, Imm64(i.imm), false);
      zib.SetOp(op);
      zib.Store(TReg, i.rd, false, false);
      zib.J(4, 4);
      Insert(zib, 4);
    }

    method StoreOp(i: RvInst, w: nat)
      requires Room() && ValidWidth(w)
      modifies this
      ensures s == old(s) + 4 && insts == old(insts) + map[old(s) := StoreInst(i, w, old(s))]
    {
      var zib := new ZiskInstBuilder(s);
      zib.SrcA(AReg, i.rs1, false);
      zib.SrcB(BReg, i.rs2, false);
      zib.SetOp(CopyB);
      zib.IndWidth(w);
      zib.Store(TInd, i.imm, false, false);
      zib.J(4, 4);
      Insert(zib, 4);
    }

    method ImmOp(i: RvInst, op: Op)
      requires Room()
      modifies this
      ensures s == old(s) + 4 && insts == old(insts) + map[old(s) := ImmediateOp(i, op, old(s))]
    {
      var zib := new ZiskInstBuilder(s);
      zib.SrcA(AReg, i.rs1, false);
      zib.SrcB(BImm, Imm64(i.imm), false);
      zib.SetOp(op);
      zib.Store(TReg, i.rd, false, false);
      zib.J(4, 4);
      Insert(zib, 4);
    }

    /** With x0 as the register operand, the result is the immediate itself. */
    method ImmOpOrX0CopyB(i: RvInst, op: Op)
      requires Room()
      modifies this
      ensures s == old(s) + 4
      ensures insts == old(insts) + map[old(s) := ImmediateOp(i, if i.rs1 == 0 then CopyB else op, old(s))]
    {
      var zib := new ZiskInstBuilder(s);
      zib.SrcA(AReg, i.rs1, false);
      zib.SrcB(BImm, Imm64(i.imm), false);
      if i.rs1 == 0 {
        zib.SetOp(CopyB);
      } else {
        zib.SetOp(op);
      }
      zib.Store(TReg, i.rd, false, false);
      zib.J(4, 4);
      Insert(zib, 4);
    }

    method AuipcOp(i: RvInst)
      requires Room()
      modifies this
      ensures s == old(s) + 4 && insts == old(insts) + map[old(s) := AuipcInst(i, old(s))]
    {
      var zib := new ZiskInstBuilder(s);
      zib.SrcA(AImm, 0, false);
      zib.SrcB(BImm, 0, false);
      zib.SetOp(Flag);
      zib.StoreRa(TReg, i.rd, false);
      zib.J(4, i.imm);
      Insert(zib, 4);
    }

    method LuiOp(i: RvInst)
      requires Room()
      modifies this
      ensures s == old(s) + 4 && insts == old(insts) + map[old(s) := LuiInst(i, old(s))]
    {
      var zib := new ZiskInstBuilder(s);
      zib.SrcA(AImm, 0, false);
      zib.SrcB(BImm, Imm64(i.imm), false);
      zib.SetOp(CopyB);
      zib.Store(TReg, i.rd, false, false);
      zib.J(4, 4);
      Insert(zib, 4);
    }

    method JalOp(i: RvInst)
      requires Room()
      modifies this
      ensures s == old(s) + 4 && insts == old(insts) + map[old(s) := JalInst(i, old(s))]
    {
      var zib := new ZiskInstBuilder(s);
      zib.SrcA(AImm, 0, false);
      zib.SrcB(BImm, 0, false);
      zib.SetOp(Flag);
      zib.StoreRa(TReg, i.rd, false);
      zib.J(i.imm, 4);
      Insert(zib, 4);
    }

    method InsertJalrAligned(i: RvInst)
      requires s < 0x1_0000_0000_0000_0000
      modifies this
      ensures s == old(s) + 4 && insts == old(insts)[old(s) := JalrAligned(i, old(s))]
    {
      var zib := new ZiskInstBuilder(s);
      zib.SrcA(AImm, 0xFFFF_FFFF_FFFF_FFFC, false);
      zib.SrcB(BReg, i.rs1, false);
      zib.SetOp(OpAnd);
      zib.SetPc();
      zib.StoreRa(TReg, i.rd, false);
      zib.J(i.imm, 4);
      Insert(zib, 4);
    }

    method InsertJalrFirst(i: RvInst)
      requires s < 0x1_0000_0000_0000_0000
      modifies this
      ensures s == old(s) + 1 && insts == old(insts)[old(s) := JalrFirst(i, old(s))]
    {
      var zib := new ZiskInstBuilder(s);
      zib.SrcA(AImm, Imm64(i.imm), false);
      zib.SrcB(BReg, i.rs1, false);
      zib.SetOp(Add);
      zib.J(1, 1);
      Insert(zib, 1);
    }

    method InsertJalrSecond(i: RvInst)
      requires s < 0x1_0000_0000_0000_0000
      modifies this
      ensures s == old(s) + 3 && insts == old(insts)[old(s) := JalrSecond(i, old(s))]
    {
      var zib := new ZiskInstBuilder(s);
      zib.SrcA(AImm, 0xFFFF_FFFF_FFFF_FFFC, false);
      zib.SrcB(BLastC, 0, false);
      zib.SetOp(OpAnd);
      zib.SetPc();
      zib.StoreRa(TReg, i.rd, false);
      zib.J(0, 3);
      Insert(zib, 3);
    }

    method JalrOp(i: RvInst)
      requires Room()
      modifies this
      ensures s == old(s) + 4
      ensures insts == old(insts) +
                       if i.imm % 4 == 0 then map[old(s) := JalrAligned(i, old(s))]
                       else map[old(s) := JalrFirst(i, old(s)), old(s) + 1 := JalrSecond(i, old(s) + 1)]
    {
      hide JalrAligned, JalrFirst, JalrSecond;
      if i.imm % 4 == 0 {
        InsertJalrAligned(i);
      } else {
        InsertJalrFirst(i);
        InsertJalrSecond(i);
      }
    }

    method EcallOp()
      requires Room()
      modifies this
      ensures s == old(s) + 4 && insts == old(insts) + map[old(s) := EcallInst(old(s))]
    {
      var zib := new ZiskInstBuilder(s);
      zib.SrcA(AImm, 0, false);
      zib.SrcB(BMem, MTVEC, false);
      zib.SetOp(CopyB);
      zib.StoreRa(TReg, 1, false);
      zib.SetPc();
      zib.J(0, 4);
      Insert(zib, 4);
    }

    method InsertAtomicLoad(i: RvInst, wide: bool, dst: nat)
      requires s < 0x1_0000_0000_0000_0000 && dst <= 32
      modifies this
      ensures s == old(s) + 1 && insts == old(insts)[old(s) := AtomicLoad(i, wide, dst, old(s))]
    {
      var zib := new ZiskInstBuilder(s);
      zib.SrcA(AReg, i.rs1, false);
      zib.IndWidth(ZiskAtomicWidth(wide));
      zib.SrcB(BInd, 0, false);
      zib.SetOp(LoadZisk(LoadOf(wide)));
      zib.Store(TReg, dst, false, false);
      zib.J(1, 1);
      Insert(zib, 1);
    }

    method InsertAtomicCombine(i: RvInst, op: Op)
      requires s < 0x1_0000_0000_0000_0000
      modifies this
      ensures s == old(s) + 1 && insts == old(insts)[old(s) := AtomicCombine(i, op, old(s))]
    {
      var zib := new ZiskInstBuilder(s);
      zib.SrcA(ALastC, 0, false);
      zib.SrcB(BReg, i.rs2, false);
      zib.SetOp(op);
      zib.J(1, 1);
      Insert(zib, 1);
    }

    method InsertAtomicStore(i: RvInst, wide: bool, j: u32)
      requires s < 0x1_0000_0000_0000_0000 && j <= 4
      modifies this
      ensures s == old(s) + j && insts == old(insts)[old(s) := AtomicStore(i, wide, j, old(s))]
    {
      var zib := new ZiskInstBuilder(s);
      zib.SrcA(AReg, i.rs1, false);
      zib.IndWidth(ZiskAtomicWidth(wide));
      zib.SrcB(BLastC, 0, false);
      zib.SetOp(CopyB);
      zib.Store(TInd, 0, false, false);
      zib.J(j, j);
      Insert(zib, j);
    }

    method InsertCopyTemp(i: RvInst, j: u32)
      requires s < 0x1_0000_0000_0000_0000 && j <= 4
      modifies this
      ensures s == old(s) + j && insts == old(insts)[old(s) := CopyTemp(i, j, old(s))]
    {
      var zib := new ZiskInstBuilder(s);
      zib.SrcA(AImm, 0, false);
      zib.SrcB(BReg, TEMP_REG, false);
      zib.SetOp(CopyB);
      zib.Store(TReg, i.rd, false, false);
      zib.J(j, j);
      Insert(zib, j);
    }

    method InsertStoreRs2(i: RvInst, wide: bool, j: u32)
      requires s < 0x1_0000_0000_0000_0000 && j <= 4
      modifies this
      ensures s == old(s) + j && insts == old(insts)[old(s) := StoreRs2(i, wide, j, old(s))]
    {
      var zib := new ZiskInstBuilder(s);
      zib.SrcA(AReg, i.rs1, false);
      zib.SrcB(BReg, i.rs2, false);
      zib.SetOp(CopyB);
      zib.IndWidth(ZiskAtomicWidth(wide));
      zib.Store(TInd, 0, false, false);
      zib.J(j, j);
      Insert(zib, j);
    }

    method InsertScResult(i: RvInst, wide: bool)
      requires s < 0x1_0000_0000_0000_0000
      modifies this
      ensures s == old(s) + 3 && insts == old(insts)[old(s) := ScResult(i, wide, old(s))]
    {
      var zib := new ZiskInstBuilder(s);
      zib.SrcA(AImm, 0, false);
      zib.SrcB(BImm, 0, false);
      zib.SetOp(CopyB);
      if !wide {
        zib.IndWidth(4);
      }
      zib.Store(TReg, i.rd, false, false);
      zib.J(3, 3);
      Insert(zib, 3);
    }

    method CreateAtomicOp(i: RvInst, f: AmoOp, wide: bool)
      requires Room()
      modifies this
      ensures s == old(s) + 4 && insts == old(insts) + AtomicOp(i, f, wide, old(s))
    {
      hide AtomicLoad, AtomicCombine, AtomicStore, CopyTemp;
      if i.rd != i.rs1 && i.rd != i.rs2 {
        InsertAtomicLoad(i, wide, i.rd);
        InsertAtomicCombine(i, AmoZisk(f, wide));
        InsertAtomicStore(i, wide, 2);
      } else {
        InsertAtomicLoad(i, wide, TEMP_REG);
        InsertAtomicCombine(i, AmoZisk(f, wide));
        InsertAtomicStore(i, wide, 1);
        InsertCopyTemp(i, 1);
      }
    }

    method CreateAtomicSwap(i: RvInst, wide: bool)
      requires Room()
      modifies this
      ensures s == old(s) + 4 && insts == old(insts) + AtomicSwap(i, wide, old(s))
    {
      hide AtomicLoad, StoreRs2, CopyTemp;
      if i.rd != i.rs1 && i.rd != i.rs2 {
        InsertAtomicLoad(i, wide, i.rd);
        InsertStoreRs2(i, wide, 3);
      } else {
        InsertAtomicLoad(i, wide, TEMP_REG);
        InsertStoreRs2(i, wide, 1);
        InsertCopyTemp(i, 2);
      }
    }

    /** sc.w and sc.d */
    method ScOp(i: RvInst, wide: bool)
      requires Room()
      modifies this
      ensures s == old(s) + 4 && insts == old(insts) + StoreConditional(i, wide, old(s))
    {
      hide StoreRs2, ScResult;
      if i.rd > 0 {
        InsertStoreRs2(i, wide, 1);
        InsertScResult(i, wide);
      } else {
        InsertStoreRs2(i, wide, 4);
      }
    }

    /** Stores the micro-instructions of an instruction at the next address, or panics. */
    method Convert(i: RvInst) returns (r: Outcome)
      requires Room()
      modifies this
      ensures r.Panic? <==> MicroOps(i, old(s)).None?
      ensures r.Done? ==> s == old(s) + 4 && insts == old(insts) + MicroOps(i, old(s)).value
      ensures r.Panic? ==> s == old(s) && insts == old(insts)
    {
      hide LoadInst, StoreInst, RegisterOp, ImmediateOp, LuiInst, AuipcInst, JalInst, JalrAligned, JalrFirst, JalrSecond,
        BranchOp, Nop, EcallInst, AtomicOp, AtomicSwap, StoreConditional;
      match i.op {
        case Load(load) => LoadOp(i, LoadZisk(load), ZiskLoadWidth(load));
        case Store(store) => StoreOp(i, ZiskStoreWidth(store));
        case OpReg(f) => CreateRegisterOp(i, ZiskOp(f));
        case OpImm(f) =>
          if !HasImmForm(f) {
            return Panic;
          }
          if CopyWithX0(f) {
            ImmOpOrX0CopyB(i, ZiskOp(f));
          } else {
            ImmOp(i, ZiskOp(f));
          }
        case Lui => LuiOp(i);
        case Auipc => AuipcOp(i);
        case Jal => JalOp(i);
        case Jalr => JalrOp(i);
        case Branch(cond) =>
          var (op, neg) := BranchTest(cond);
          CreateBranchOp(i, op, neg);
        case Amo(f, wide) =>
          if f.SWAP? {
            CreateAtomicSwap(i, wide);
          } else {
            CreateAtomicOp(i, f, wide);
          }
        case Lr(wide) => LoadOp(i, LoadZisk(LoadOf(wide)), ZiskAtomicWidth(wide));
        case Sc(wide) => ScOp(i, wide);
        case Fence => NopOp();
        case FenceI => NopOp();
        case Ebreak => NopOp();
        case Ecall => EcallOp();
      }
      return Done;
    }
  }
}
