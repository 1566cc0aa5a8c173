/** Zisk micro-instructions and the setters that build them. */
module ZiskInst {
  import opened Words
  import opened MemoryModel

  const REG_FIRST: u64 := SYS_ADDR
  const REGS_IN_MAIN_FROM := 1
  const REGS_IN_MAIN_TO := 31

  datatype Src = SrcC | SrcMem | SrcImm | SrcStep | SrcInd | SrcReg

  datatype Store = StoreNone | StoreMem | StoreInd | StoreReg

  datatype Op =
    | Flag | CopyB | SignExtendB | SignExtendH | SignExtendW
    | Add | AddW | Sub | SubW
    | Sll | SllW | Sra | Srl | SraW | SrlW
    | Eq | EqW | Ltu | Lt | LtuW | LtW | Leu | Le | LeuW | LeW
    | OpAnd | OpOr | OpXor
    | Mulu | Muluh | Mulsuh | Mul | Mulh | MulW
    | Divu | Remu | Div | Rem | DivuW | RemuW | DivW | RemW
    | Minu | Min | MinuW | MinW | Maxu | Max | MaxuW | MaxW
    | PubOut
    | Keccak | Sha256 | Arith256 | Arith256Mod | Secp256k1Add | Secp256k1Dbl
    | FcallParam | Fcall | FcallGet
    | NoFunc  // the empty function of a default instruction
  {
    /** Bytes of input data a precompile reads; 0 for every other operation. */
    function InputSize(): nat {
      match this
      case Keccak => 200
      case Sha256 => 96
      case Arith256 => 136
      case Arith256Mod => 168
      case Secp256k1Add => 144
      case Secp256k1Dbl => 64
      case _ => 0
    }
  }

  /** What the setters accept for operand a, operand b and the destination of c. */
  datatype ASource = AReg | AMem | AImm | ALastC | AStep
  datatype BSource = BReg | BMem | BImm | BLastC | BInd
  datatype Target = TNone | TReg | TMem | TInd

  datatype Inst = Inst(
    paddr: u64,
    aSrc: Src, aUseSpImm1: u64, aOffsetImm0: u64,
    bSrc: Src, bUseSpImm1: u64, bOffsetImm0: u64,
    op: Op,
    store: Store, storeOffset: i64, storeUseSp: bool, storeRa: bool,
    indWidth: nat, setPc: bool, end: bool,
    jmpOffset1: i64, jmpOffset2: i64,
    sortedPcListIndex: nat)
  {
    /** Operand a. Register 0 is the constant 0, and registers outside 1..31 live in memory. */
    function SrcA(source: ASource, value: u64, useSp: bool): Inst
    {
      var sp := if useSp then 1 else 0;
      match source
      case AReg =>
        if value == 0 then SetA(SrcImm, 0, 0)
        else if value < REGS_IN_MAIN_FROM || value > REGS_IN_MAIN_TO then SetA(SrcMem, sp, Wrap(REG_FIRST + value * 8))
        else SetA(SrcReg, sp, value)
      case AMem => SetA(SrcMem, sp, value)
      case AImm => SetA(SrcImm, High32(value), Low32(value))
      case ALastC => SetA(SrcC, 0, 0)
      case AStep => SetA(SrcStep, 0, 0)
    }

    function SetA(src: Src, useSpImm1: u64, offsetImm0: u64): Inst {
      this.(aSrc := src, aUseSpImm1 := useSpImm1, aOffsetImm0 := offsetImm0)
    }

    function SrcB(source: BSource, value: u64, useSp: bool): Inst
    {
      var sp := if useSp then 1 else 0;
      match source
      case BReg =>
        if value == 0 then SetB(SrcImm, 0, 0)
        else if value < REGS_IN_MAIN_FROM || value > REGS_IN_MAIN_TO then SetB(SrcMem, sp, Wrap(REG_FIRST + value * 8))
        else SetB(SrcReg, sp, value)
      case BMem => SetB(SrcMem, sp, value)
      case BImm => SetB(SrcImm, High32(value), Low32(value))
      case BLastC => SetB(SrcC, 0, 0)
      case BInd => SetB(SrcInd, sp, value)
    }

    function SetB(src: Src, useSpImm1: u64, offsetImm0: u64): Inst {
      this.(bSrc := src, bUseSpImm1 := useSpImm1, bOffsetImm0 := offsetImm0)
    }

    /** Destination of c. Storing to register 0 leaves the instruction as it is. */
    function StoreTo(target: Target, offset: i64, useSp: bool, ra: bool): Inst
      requires target.TReg? ==> -0x1_0000 <= offset < 0x1_0000
    {
      match target
      case TReg =>
        if offset == 0 then this
        else if offset < REGS_IN_MAIN_FROM || offset > REGS_IN_MAIN_TO then
          SetStore(StoreMem, REG_FIRST + offset * 8, useSp, ra)
        else SetStore(StoreReg, offset, useSp, ra)
      case TMem => SetStore(StoreMem, offset, useSp, ra)
      case TInd => SetStore(StoreInd, offset, useSp, ra)
      case TNone => SetStore(StoreNone, 0, false, ra)
    }

    function SetStore(dst: Store, offset: i64, useSp: bool, ra: bool): Inst {
      this.(store := dst, storeOffset := offset, storeUseSp := useSp, storeRa := ra)
    }

    function StoreRa(target: Target, offset: i64, useSp: bool): Inst
      requires target.TReg? ==> -0x1_0000 <= offset < 0x1_0000
    {
      StoreTo(target, offset, useSp, true)
    }

    function WithOp(o: Op): Inst { this.(op := o) }

    function WithSetPc(): Inst { this.(setPc := true) }

    function J(j1: i32, j2: i32): Inst { this.(jmpOffset1 := j1, jmpOffset2 := j2) }

    function IndWidth(w: nat): Inst
      requires ValidWidth(w)
    {
      this.(indWidth := w)
    }

    function WithEnd(): Inst { this.(end := true) }
  }

  function High32(x: u64): u32 {
    x / 0x1_0000_0000
  }

  /** The end of a run: an instruction that sets the end flag and stays where it is. */
  predicate IsLast(i: Inst) {
    i.op.CopyB? && !i.setPc && i.jmpOffset1 == 0 && i.jmpOffset2 == 0
  }

  /** Register operands are registers 1 to 31. */
  predicate UsesMainRegs(i: Inst) {
    && (i.aSrc.SrcReg? ==> REGS_IN_MAIN_FROM <= i.aOffsetImm0 <= REGS_IN_MAIN_TO)
    && (i.bSrc.SrcReg? ==> REGS_IN_MAIN_FROM <= i.bOffsetImm0 <= REGS_IN_MAIN_TO)
    && (i.store.StoreReg? ==> REGS_IN_MAIN_FROM <= i.storeOffset <= REGS_IN_MAIN_TO)
  }

  /** The instruction every builder starts from: all fields zero and an empty function. */
  function DefaultInst(): Inst {
    Inst(0, SrcC, 0, 0, SrcC, 0, 0, NoFunc, StoreNone, 0, false, false, 0, false, false, 0, 0, 0)
  }

  function NewInst(paddr: u64): Inst {
    DefaultInst().(paddr := paddr)
  }
}
