/** Decoding 32-bit instruction words, and the encodings of chapter 24 of the ISA it inverts. */
module Decoder {
  import opened Words
  import opened Wrappers
  import opened Riscv

  datatype Format = IType | RType | SType | BType | UType | JType | AType | CType | FType

  /** A node below an opcode: a name, or a choice by the second index. */
  datatype RvdBranch = Leaf(name: Mnemonic) | Fork(second: map<nat, Mnemonic>)

  /** A name for the whole opcode, or a choice by the first index. */
  datatype RvdOperation = Only(name: Mnemonic) | Tree(first: map<nat, RvdBranch>)

  datatype RvdInfo = RvdInfo(t: Format, op: RvdOperation)

  // ---- the opcode tree ----

  function LoadTree(): RvdOperation {
    Tree(map[0 := Leaf(Load(LB)), 1 := Leaf(Load(LH)), 2 := Leaf(Load(LW)), 3 := Leaf(Load(LD)),
             4 := Leaf(Load(LBU)), 5 := Leaf(Load(LHU)), 6 := Leaf(Load(LWU))])
  }

  function FenceTree(): RvdOperation {
    Tree(map[0 := Leaf(Fence), 1 := Leaf(FenceI)])
  }

  function OpImmTree(): RvdOperation {
    Tree(map[0 := Leaf(OpImm(ADD)), 1 := Fork(map[0 := OpImm(SLL)]), 2 := Leaf(OpImm(SLT)), 3 := Leaf(OpImm(SLTU)),
             4 := Leaf(OpImm(XOR)), 5 := Fork(map[0 := OpImm(SRL), 16 := OpImm(SRA)]), 6 := Leaf(OpImm(OR)),
             7 := Leaf(OpImm(AND))])
  }

  function OpImm32Tree(): RvdOperation {
    Tree(map[0 := Leaf(OpImm(ADDW)), 1 := Fork(map[0 := OpImm(SLLW)]),
             5 := Fork(map[0 := OpImm(SRLW), 16 := OpImm(SRAW)])])
  }

  function StoreTree(): RvdOperation {
    Tree(map[0 := Leaf(Store(SB)), 1 := Leaf(Store(SH)), 2 := Leaf(Store(SW)), 3 := Leaf(Store(SD))])
  }

  function AmoFork(wide: bool): RvdBranch {
    Fork(map[2 := Lr(wide), 3 := Sc(wide), 1 := Amo(SWAP, wide), 0 := Amo(AADD, wide), 4 := Amo(AXOR, wide),
             12 := Amo(AAND, wide), 8 := Amo(AOR, wide), 16 := Amo(AMIN, wide), 20 := Amo(AMAX, wide),
             24 := Amo(AMINU, wide), 28 := Amo(AMAXU, wide)])
  }

  function AmoTree(): RvdOperation {
    Tree(map[2 := AmoFork(false), 3 := AmoFork(true)])
  }

  function OpTree(): RvdOperation {
    Tree(map[0 := Fork(map[0 := OpReg(ADD), 1 := OpReg(MUL), 32 := OpReg(SUB)]),
             1 := Fork(map[0 := OpReg(SLL), 1 := OpReg(MULH)]),
             2 := Fork(map[0 := OpReg(SLT), 1 := OpReg(MULHSU)]),
             3 := Fork(map[0 := OpReg(SLTU), 1 := OpReg(MULHU)]),
             4 := Fork(map[0 := OpReg(XOR), 1 := OpReg(DIV)]),
             5 := Fork(map[0 := OpReg(SRL), 1 := OpReg(DIVU), 32 := OpReg(SRA)]),
             6 := Fork(map[0 := OpReg(OR), 1 := OpReg(REM)]),
             7 := Fork(map[0 := OpReg(AND), 1 := OpReg(REMU)])])
  }

  function Op32Tree(): RvdOperation {
    Tree(map[0 := Fork(map[0 := OpReg(ADDW), 1 := OpReg(MULW), 32 := OpReg(SUBW)]),
             1 := Fork(map[0 := OpReg(SLLW)]),
             4 := Fork(map[1 := OpReg(DIVW)]),
             5 := Fork(map[0 := OpReg(SRLW), 1 := OpReg(DIVUW), 32 := OpReg(SRAW)]),
             6 := Fork(map[1 := OpReg(REMW)]),
             7 := Fork(map[1 := OpReg(REMUW)])])
  }

  function BranchTree(): RvdOperation {
    Tree(map[0 := Leaf(Branch(BEQ)), 1 := Leaf(Branch(BNE)), 4 := Leaf(Branch(BLT)), 5 := Leaf(Branch(BGE)),
             6 := Leaf(Branch(BLTU)), 7 := Leaf(Branch(BGEU))])
  }

  function JalrTree(): RvdOperation {
    Tree(map[0 := Leaf(Jalr)])
  }

  /** System instructions are told apart by the interpreter; CSR accesses are left out. */
  function SystemTree(): RvdOperation {
    Tree(map[0 := Fork(map[0 := Ecall, 1 := Ebreak])])
  }

  function InfoOf(opcode: nat): Option<RvdInfo> {
    if opcode == 3 then Some(RvdInfo(IType, LoadTree()))
    else if opcode == 15 then Some(RvdInfo(FType, FenceTree()))
    else if opcode == 19 then Some(RvdInfo(IType, OpImmTree()))
    else if opcode == 23 then Some(RvdInfo(UType, Only(Auipc)))
    else if opcode == 27 then Some(RvdInfo(IType, OpImm32Tree()))
    else if opcode == 35 then Some(RvdInfo(SType, StoreTree()))
    else if opcode == 47 then Some(RvdInfo(AType, AmoTree()))
    else if opcode == 51 then Some(RvdInfo(RType, OpTree()))
    else if opcode == 55 then Some(RvdInfo(UType, Only(Lui)))
    else if opcode == 59 then Some(RvdInfo(RType, Op32Tree()))
    else if opcode == 99 then Some(RvdInfo(BType, BranchTree()))
    else if opcode == 103 then Some(RvdInfo(IType, JalrTree()))
    else if opcode == 111 then Some(RvdInfo(JType, Only(Jal)))
    else if opcode == 115 then Some(RvdInfo(CType, SystemTree()))
    else None
  }

  class Rvd {
    var opcodes: map<nat, RvdInfo>

    constructor ()
      ensures opcodes == map[]
    {
      opcodes := map[];
    }

    /** Fills the tree, opcode by opcode. */
    method Init()
      modifies this
      ensures forall k: nat :: (k in opcodes <==> k in old(opcodes) || InfoOf(k).Some?)
      ensures forall k: nat :: InfoOf(k).Some? ==> k in opcodes && opcodes[k] == InfoOf(k).value
    {
      hide LoadTree, FenceTree, OpImmTree, OpImm32Tree, StoreTree, AmoTree, OpTree, Op32Tree, BranchTree, JalrTree, SystemTree;
      opcodes := opcodes[3 := RvdInfo(IType, LoadTree())];
      opcodes := opcodes[15 := RvdInfo(FType, FenceTree())];
      opcodes := opcodes[19 := RvdInfo(IType, OpImmTree())];
      opcodes := opcodes[23 := RvdInfo(UType, Only(Auipc))];
      opcodes := opcodes[27 := RvdInfo(IType, OpImm32Tree())];
      opcodes := opcodes[35 := RvdInfo(SType, StoreTree())];
      opcodes := opcodes[47 := RvdInfo(AType, AmoTree())];
      opcodes := opcodes[51 := RvdInfo(RType, OpTree())];
      opcodes := opcodes[55 := RvdInfo(UType, Only(Lui))];
      opcodes := opcodes[59 := RvdInfo(RType, Op32Tree())];
      opcodes := opcodes[99 := RvdInfo(BType, BranchTree())];
      opcodes := opcodes[103 := RvdInfo(IType, JalrTree())];
      opcodes := opcodes[111 := RvdInfo(JType, Only(Jal))];
      opcodes := opcodes[115 := RvdInfo(CType, SystemTree())];
    }
  }

  /** The mnemonic for two indexes, and at which level of the tree it was found. */
  function GetInst(op: RvdOperation, i1: nat, i2: nat): Option<(Mnemonic, nat)> {
    match op
    case Only(name) => Some((name, 0))
    case Tree(first) =>
      if i1 !in first then None
      else
        match first[i1]
        case Leaf(name) => Some((name, 1))
        case Fork(second) => if i2 in second then Some((second[i2], 2)) else None
  }

  // ---- decoding ----

  /** The fields at fixed positions. */
  function Rd(w: u32): RegIndex { w / 0x80 % 0x20 }
  function Funct3(w: u32): nat { w / 0x1000 % 8 }
  function Rs1(w: u32): RegIndex { w / 0x8000 % 0x20 }
  function Rs2(w: u32): RegIndex { w / 0x10_0000 % 0x20 }
  function Funct7(w: u32): nat { w / 0x200_0000 }

  /** The two's-complement value of the low bits of v, given 2^(size-1). */
  function Signext(v: nat, sign: nat): int
    requires sign > 0
  {
    if v / sign % 2 != 0 then v - 2 * sign else v
  }

  /** A word decodes to an instruction of the model, to a CSR access, or makes the program panic. */
  datatype Decoded = Instruction(i: RvInst) | CsrAccess | Invalid

  function DecodeI(op: RvdOperation, w: u32): Decoded {
    var inst := GetInst(op, Funct3(w), w / 0x400_0000);
    if inst.None? then Invalid
    else
      var (name, l) := inst.value;
      var imm := w / 0x10_0000;
      Instruction(RvInst(name, Rd(w), Rs1(w), 0, if l == 2 then imm % 0x40 else Signext(imm, 0x800)))
  }

  function DecodeR(op: RvdOperation, w: u32): Decoded {
    var inst := GetInst(op, Funct3(w), Funct7(w));
    if inst.None? then Invalid else Instruction(RvInst(inst.value.0, Rd(w), Rs1(w), Rs2(w), 0))
  }

  function DecodeS(op: RvdOperation, w: u32): Decoded {
    var inst := GetInst(op, Funct3(w), 0);
    if inst.None? then Invalid
    else Instruction(RvInst(inst.value.0, 0, Rs1(w), Rs2(w), Signext(Funct7(w) * 0x20 + Rd(w), 0x800)))
  }

  function DecodeB(op: RvdOperation, w: u32): Decoded {
    var inst := GetInst(op, Funct3(w), 0);
    if inst.None? then Invalid
    else
      var imm11, imm4to1 := w / 0x80 % 2, w / 0x100 % 0x10;
      var imm10to5, imm12 := w / 0x200_0000 % 0x40, w / 0x8000_0000;
      Instruction(RvInst(inst.value.0, 0, Rs1(w), Rs2(w),
                         Signext(imm12 * 0x1000 + imm11 * 0x800 + imm10to5 * 0x20 + imm4to1 * 2, 0x1000)))
  }

  function DecodeU(op: RvdOperation, w: u32): Decoded {
    var inst := GetInst(op, 0, 0);
    if inst.None? then Invalid else Instruction(RvInst(inst.value.0, Rd(w), 0, 0, Signed32(w / 0x1000 * 0x1000)))
  }

  function DecodeJ(op: RvdOperation, w: u32): Decoded {
    var inst := GetInst(op, 0, 0);
    if inst.None? then Invalid
    else
      var imm20, imm10to1 := w / 0x8000_0000, w / 0x20_0000 % 0x400;
      var imm11, imm19to12 := w / 0x10_0000 % 2, w / 0x1000 % 0x100;
      Instruction(RvInst(inst.value.0, Rd(w), 0, 0,
                         Signext(imm20 * 0x10_0000 + imm19to12 * 0x1000 + imm11 * 0x800 + imm10to1 * 2, 0x10_0000)))
  }

  function DecodeA(op: RvdOperation, w: u32): Decoded {
    var inst := GetInst(op, Funct3(w), w / 0x800_0000);
    if inst.None? then Invalid else Instruction(RvInst(inst.value.0, Rd(w), Rs1(w), Rs2(w), 0))
  }

  /** Anything with funct3 0 that is not ebreak counts as ecall; funct3 4 has no instruction. */
  function DecodeC(w: u32): Decoded {
    if Funct3(w) == 0 then Instruction(RvInst(if w == 0x10_0073 then Ebreak else Ecall, 0, 0, 0, 0))
    else if Funct3(w) == 4 then Invalid
    else CsrAccess
  }

  /** The bits that must be zero are those of rd, rs1 and, above the fence sets, 31 to 28; for
      fence.i, of rd and everything above funct3. */
  function DecodeF(w: u32): Decoded {
    if Funct3(w) == 0 then
      if w / 0x1000_0000 != 0 || Rs1(w) != 0 || Rd(w) != 0 then Invalid else Instruction(RvInst(Fence, 0, 0, 0, 0))
    else if Funct3(w) == 1 then
      if w / 0x8000 != 0 || Rd(w) != 0 then Invalid else Instruction(RvInst(FenceI, 0, 0, 0, 0))
    else Invalid
  }

  function DecodeWith(info: RvdInfo, w: u32): Decoded {
    match info.t
    case IType => DecodeI(info.op, w)
    case RType => DecodeR(info.op, w)
    case SType => DecodeS(info.op, w)
    case BType => DecodeB(info.op, w)
    case UType => DecodeU(info.op, w)
    case JType => DecodeJ(info.op, w)
    case AType => DecodeA(info.op, w)
    case CType => DecodeC(w)
    case FType => DecodeF(w)
  }

  function Decode(w: u32): Decoded {
    var info := InfoOf(w % 0x80);
    if info.None? then Invalid else DecodeWith(info.value, w)
  }

  /** Decoding a code section; zero words are skipped. None: the program panics. A CSR access ends
      the part of the section that the model covers. */
  method RiscvInterpreter(code: seq<u32>) returns (r: Option<seq<Decoded>>)
    ensures r == DecodeAll(code)
  {
    hide Decode, InfoOf, DecodeWith;
    var insts := [];
    var rvd := new Rvd();
    rvd.Init();
    var opcodes := rvd.opcodes;
    for s := 0 to |code|
      invariant DecodeAll(code[..s]) == Some(insts)
    {
      DecodeNext(code, s);
      var inst := code[s];
      if inst != 0 {
        var opcode := inst % 0x80;
        DecodeStep(inst);
        if opcode !in opcodes {
          DecodeAllStops(code, s + 1);
          return None;
        }
        var i := DecodeWith(opcodes[opcode], inst);
        if i.Invalid? {
          DecodeAllStops(code, s + 1);
          return None;
        }
        insts := insts + [i];
      }
    }
    assert code[..|code|] == code;
    return Some(insts);
  }

  lemma DecodeNext(code: seq<u32>, s: nat)
    requires s < |code| && DecodeAll(code[..s]).Some?
    ensures DecodeAll(code[..s + 1]) ==
            if code[s] == 0 then DecodeAll(code[..s])
            else if Decode(code[s]).Invalid? then None
            else Some(DecodeAll(code[..s]).value + [Decode(code[s])])
  {
    hide Decode;
    assert code[..s + 1][..s] == code[..s];
  }

  lemma DecodeStep(w: u32)
    ensures InfoOf(w % 0x80).None? ==> Decode(w).Invalid?
    ensures InfoOf(w % 0x80).Some? ==> Decode(w) == DecodeWith(InfoOf(w % 0x80).value, w)
  {
    hide InfoOf, DecodeWith;
  }

  function DecodeAll(code: seq<u32>): Option<seq<Decoded>> {
    if code == [] then Some([])
    else
      var last := |code| - 1;
      var before :- DecodeAll(code[..last]);
      if code[last] == 0 then Some(before)
      else if Decode(code[last]).Invalid? then None
      else Some(before + [Decode(code[last])])
  }

  lemma {:induction false} DecodeAllStops(code: seq<u32>, k: nat)
    requires k <= |code| && DecodeAll(code[..k]).None?
    ensures DecodeAll(code).None?
    decreases |code|
  {
    hide Decode;
    if k < |code| {
      assert code[..|code| - 1][..k] == code[..k];
      DecodeAllStops(code[..|code| - 1], k);
    } else {
      assert code[..k] == code;
    }
  }

  // ---- encoding, after the tables of chapter 24 ----

  function Fields(op: nat, rd: nat, f3: nat, rs1: nat, rs2: nat, f7: nat): nat {
    op + 0x80 * rd + 0x1000 * f3 + 0x8000 * rs1 + 0x10_0000 * rs2 + 0x200_0000 * f7
  }

  predicate FieldsOk(op: nat, rd: nat, f3: nat, rs1: nat, rs2: nat, f7: nat) {
    op < 0x80 && rd < 0x20 && f3 < 8 && rs1 < 0x20 && rs2 < 0x20 && f7 < 0x80
  }

  function LoadFunct(load: LoadOp): nat {
    match load case LB => 0 case LH => 1 case LW => 2 case LD => 3 case LBU => 4 case LHU => 5 case LWU => 6
  }

  function StoreFunct(store: StoreOp): nat {
    match store case SB => 0 case SH => 1 case SW => 2 case SD => 3
  }

  function CondFunct(cond: Cond): nat {
    match cond case BEQ => 0 case BNE => 1 case BLT => 4 case BGE => 5 case BLTU => 6 case BGEU => 7
  }

  predicate IsWord(f: AluOp) {
    f.ADDW? || f.SUBW? || f.SLLW? || f.SRLW? || f.SRAW? || f.MULW? || f.DIVW? || f.DIVUW? || f.REMW? || f.REMUW?
  }

  function AluFunct3(f: AluOp): nat {
    match f
    case ADD => 0 case SUB => 0 case MUL => 0 case ADDW => 0 case SUBW => 0 case MULW => 0
    case SLL => 1 case MULH => 1 case SLLW => 1
    case SLT => 2 case MULHSU => 2
    case SLTU => 3 case MULHU => 3
    case XOR => 4 case DIV => 4 case DIVW => 4
    case SRL => 5 case SRA => 5 case DIVU => 5 case SRLW => 5 case SRAW => 5 case DIVUW => 5
    case OR => 6 case REM => 6 case REMW => 6
    case AND => 7 case REMU => 7 case REMUW => 7
  }

  function AluFunct7(f: AluOp): nat {
    if f.SUB? || f.SRA? || f.SUBW? || f.SRAW? then 32
    else if f.MUL? || f.MULH? || f.MULHSU? || f.MULHU? || f.DIV? || f.DIVU? || f.REM? || f.REMU?
            || f.MULW? || f.DIVW? || f.DIVUW? || f.REMW? || f.REMUW? then 1
    else 0
  }

  function AmoFunct5(f: AmoOp): nat {
    match f
    case AADD => 0 case SWAP => 1 case AXOR => 4 case AOR => 8 case AAND => 12
    case AMIN => 16 case AMAX => 20 case AMINU => 24 case AMAXU => 28
  }

  predicate IsShift(f: AluOp) {
    f.SLL? || f.SRL? || f.SRA? || f.SLLW? || f.SRLW? || f.SRAW?
  }

  /** The n-bit two's-complement encoding of an immediate, given 2^n. */
  function Unsigned(imm: int, modulus: nat): int {
    if imm < 0 then imm + modulus else imm
  }

  predicate FitsSigned(imm: int, sign: nat) {
    0 <= imm + sign && imm < sign
  }

  /** Instructions in the form an assembler emits: fields without a meaning are zero. */
  predicate Canonical(i: RvInst) {
    match i.op
    case Load(_) => i.rs2 == 0 && FitsSigned(i.imm, 0x800)
    case Jalr => i.rs2 == 0 && FitsSigned(i.imm, 0x800)
    case OpImm(f) =>
      i.rs2 == 0 && HasImmForm(f)
      && (if IsShift(f) then 0 <= i.imm < (if IsWord(f) then 32 else 64) else FitsSigned(i.imm, 0x800))
    case Store(_) => i.rd == 0 && FitsSigned(i.imm, 0x800)
    case Branch(_) => i.rd == 0 && FitsSigned(i.imm, 0x1000) && i.imm % 2 == 0
    case Lui => i.rs1 == 0 && i.rs2 == 0 && i.imm % 0x1000 == 0
    case Auipc => i.rs1 == 0 && i.rs2 == 0 && i.imm % 0x1000 == 0
    case Jal => i.rs1 == 0 && i.rs2 == 0 && FitsSigned(i.imm, 0x10_0000) && i.imm % 2 == 0
    case OpReg(_) => i.imm == 0
    case Amo(_, _) => i.imm == 0
    case Lr(_) => i.imm == 0 && i.rs2 == 0
    case Sc(_) => i.imm == 0
    case _ => i.rd == 0 && i.rs1 == 0 && i.rs2 == 0 && i.imm == 0
  }

  /** imm[11:0] in bits 31 to 20. */
  function EncodeI(op: nat, f3: nat, i: RvInst, imm: nat): nat {
    Fields(op, i.rd, f3, i.rs1, imm % 0x20, imm / 0x20)
  }

  /** imm[11:5] in bits 31 to 25, imm[4:0] in bits 11 to 7. */
  function EncodeS(op: nat, f3: nat, i: RvInst, imm: nat): nat {
    Fields(op, imm % 0x20, f3, i.rs1, i.rs2, imm / 0x20)
  }

  /** imm[12|10:5] in bits 31 to 25, imm[4:1|11] in bits 11 to 7. */
  function EncodeB(op: nat, f3: nat, i: RvInst, imm: nat): nat {
    Fields(op, imm / 2 % 0x10 * 2 + imm / 0x800 % 2, f3, i.rs1, i.rs2, imm / 0x1000 * 0x40 + imm / 0x20 % 0x40)
  }

  /** imm[31:12] in bits 31 to 12. */
  function EncodeU(op: nat, i: RvInst, imm: nat): nat {
    op + 0x80 * i.rd + 0x1000 * imm
  }

  /** imm[20|10:1|11|19:12] in bits 31 to 12. */
  function EncodeJ(op: nat, i: RvInst, imm: nat): nat {
    EncodeU(op, i, imm / 0x10_0000 * 0x8_0000 + imm / 2 % 0x400 * 0x200 + imm / 0x800 % 2 * 0x100 + imm / 0x1000 % 0x100)
  }

  function EncodeAmo(funct5: nat, wide: bool, i: RvInst): nat {
    Fields(47, i.rd, if wide then 3 else 2, i.rs1, i.rs2, funct5 * 4)
  }

  function Encode(i: RvInst): nat
    requires Canonical(i)
  {
    match i.op
    case Load(load) => EncodeI(3, LoadFunct(load), i, Unsigned(i.imm, 0x1000))
    case Jalr => EncodeI(103, 0, i, Unsigned(i.imm, 0x1000))
    case OpImm(f) =>
      EncodeI(if IsWord(f) then 27 else 19, AluFunct3(f), i,
              if IsShift(f) then i.imm + (if f.SRA? || f.SRAW? then 0x400 else 0) else Unsigned(i.imm, 0x1000))
    case Store(store) => EncodeS(35, StoreFunct(store), i, Unsigned(i.imm, 0x1000))
    case Branch(cond) => EncodeB(99, CondFunct(cond), i, Unsigned(i.imm, 0x2000))
    case Lui => EncodeU(55, i, Unsigned(i.imm, 0x1_0000_0000) / 0x1000)
    case Auipc => EncodeU(23, i, Unsigned(i.imm, 0x1_0000_0000) / 0x1000)
    case Jal => EncodeJ(111, i, Unsigned(i.imm, 0x20_0000))
    case OpReg(f) => Fields(if IsWord(f) then 59 else 51, i.rd, AluFunct3(f), i.rs1, i.rs2, AluFunct7(f))
    case Amo(f, wide) => EncodeAmo(AmoFunct5(f), wide, i)
    case Lr(wide) => EncodeAmo(2, wide, i)
    case Sc(wide) => EncodeAmo(3, wide, i)
    case Fence => 15
    case FenceI => Fields(15, 0, 1, 0, 0, 0)
    case Ecall => 115
    case Ebreak => 0x10_0073
  }

  // ---- fields come back ----

  lemma FieldsRead(op: nat, rd: nat, f3: nat, rs1: nat, rs2: nat, f7: nat)
    requires FieldsOk(op, rd, f3, rs1, rs2, f7)
    ensures var w := Fields(op, rd, f3, rs1, rs2, f7);
            && w < 0x1_0000_0000 && w % 0x80 == op && Rd(w) == rd && Funct3(w) == f3 && Rs1(w) == rs1 && Rs2(w) == rs2
            && Funct7(w) == f7 && w / 0x10_0000 == rs2 + 0x20 * f7
  {
    var w := Fields(op, rd, f3, rs1, rs2, f7);
    ModUnique(w, 0x80, rd + 0x20 * f3 + 0x100 * rs1 + 0x2000 * rs2 + 0x4_0000 * f7, op);
    ModUnique(w / 0x80, 0x20, f3 + 8 * rs1 + 0x100 * rs2 + 0x2000 * f7, rd);
    ModUnique(w, 0x1000, f3 + 8 * rs1 + 0x100 * rs2 + 0x2000 * f7, op + 0x80 * rd);
    ModUnique(w / 0x1000, 8, rs1 + 0x20 * rs2 + 0x400 * f7, f3);
    ModUnique(w, 0x8000, rs1 + 0x20 * rs2 + 0x400 * f7, op + 0x80 * rd + 0x1000 * f3);
    ModUnique(w / 0x8000, 0x20, rs2 + 0x20 * f7, rs1);
    ModUnique(w, 0x10_0000, rs2 + 0x20 * f7, op + 0x80 * rd + 0x1000 * f3 + 0x8000 * rs1);
    ModUnique(w / 0x10_0000, 0x20, f7, rs2);
    ModUnique(w, 0x200_0000, f7, op + 0x80 * rd + 0x1000 * f3 + 0x8000 * rs1 + 0x10_0000 * rs2);
  }

  // ---- immediates come back ----

  lemma SignextBack(imm: int, sign: nat)
    requires sign > 0 && FitsSigned(imm, sign)
    ensures 0 <= Unsigned(imm, 2 * sign) < 2 * sign && Signext(Unsigned(imm, 2 * sign), sign) == imm
  {
    if imm < 0 {
      ModUnique(imm + 2 * sign, sign, 1, imm + sign);
    } else {
      ModUnique(imm, sign, 0, imm);
    }
  }

  /** The low part and the rest of a number. */
  lemma Halves(imm: nat, m: nat)
    requires m > 0
    ensures imm == imm / m * m + imm % m && imm % m < m
  {
  }

  /** The pieces of a branch offset. */
  lemma BranchPieces(imm: nat)
    requires imm < 0x2000 && imm % 2 == 0
    ensures imm / 0x1000 * 0x1000 + imm / 0x800 % 2 * 0x800 + imm / 0x20 % 0x40 * 0x20 + imm / 2 % 0x10 * 2 == imm
    ensures imm / 0x1000 < 2
  {
    var a := imm / 0x1000;
    var b := imm / 0x800 % 2;
    var c := imm / 0x20 % 0x40;
    var d := imm / 2 % 0x10;
    assert imm / 0x800 == 2 * a + b;
    assert imm / 0x20 == 0x40 * (imm / 0x800) + c;
    assert imm / 2 == 0x10 * (imm / 0x20) + d;
  }

  /** The pieces of a jump offset. */
  lemma JumpPieces(imm: nat)
    requires imm < 0x20_0000 && imm % 2 == 0
    ensures imm / 0x10_0000 * 0x10_0000 + imm / 0x1000 % 0x100 * 0x1000 + imm / 0x800 % 2 * 0x800 + imm / 2 % 0x400 * 2 == imm
    ensures imm / 0x10_0000 < 2
  {
    var a := imm / 0x10_0000;
    var b := imm / 0x1000 % 0x100;
    var c := imm / 0x800 % 2;
    var d := imm / 2 % 0x400;
    assert imm / 0x1000 == 0x100 * a + b;
    assert imm / 0x800 == 2 * (imm / 0x1000) + c;
    assert imm / 2 == 0x400 * (imm / 0x800) + d;
  }

  // ---- lookups ----

  lemma LoadLookup(load: LoadOp, i2: nat)
    ensures GetInst(LoadTree(), LoadFunct(load), i2) == Some((Load(load), 1))
  {
  }

  lemma StoreLookup(store: StoreOp)
    ensures GetInst(StoreTree(), StoreFunct(store), 0) == Some((Store(store), 1))
  {
  }

  lemma BranchLookup(cond: Cond)
    ensures GetInst(BranchTree(), CondFunct(cond), 0) == Some((Branch(cond), 1))
  {
  }

  lemma OpWordLookup(f: AluOp)
    requires IsWord(f)
    ensures GetInst(Op32Tree(), AluFunct3(f), AluFunct7(f)) == Some((OpReg(f), 2))
  {
  }

  lemma OpFullLookup(f: AluOp)
    requires !IsWord(f)
    ensures GetInst(OpTree(), AluFunct3(f), AluFunct7(f)) == Some((OpReg(f), 2))
  {
  }

  lemma OpLookup(f: AluOp)
    ensures GetInst(if IsWord(f) then Op32Tree() else OpTree(), AluFunct3(f), AluFunct7(f)) == Some((OpReg(f), 2))
  {
    hide GetInst, OpTree, Op32Tree, AluFunct3, AluFunct7;
    if IsWord(f) { OpWordLookup(f); } else { OpFullLookup(f); }
  }

  lemma OpImmLookup(f: AluOp, i2: nat)
    requires HasImmForm(f) && (IsShift(f) ==> i2 == AluFunct7(f) / 2)
    ensures GetInst(if IsWord(f) then OpImm32Tree() else OpImmTree(), AluFunct3(f), i2) ==
            Some((OpImm(f), if IsShift(f) then 2 else 1))
  {
  }

  lemma AmoLookup(f: AmoOp, wide: bool)
    ensures GetInst(AmoTree(), if wide then 3 else 2, AmoFunct5(f)) == Some((Amo(f, wide), 2))
    ensures GetInst(AmoTree(), if wide then 3 else 2, 2) == Some((Lr(wide), 2))
    ensures GetInst(AmoTree(), if wide then 3 else 2, 3) == Some((Sc(wide), 2))
  {
  }

  // ---- formats ----

  lemma BackI(op: RvdOperation, opcode: nat, f3: nat, i: RvInst, imm: nat, l: nat)
    requires opcode < 0x80 && f3 < 8 && imm < 0x1000 && i.rs2 == 0
    requires GetInst(op, f3, imm / 0x40) == Some((i.op, l))
    requires i.imm == if l == 2 then imm % 0x40 else Signext(imm, 0x800)
    ensures var w := EncodeI(opcode, f3, i, imm);
            w < 0x1_0000_0000 && w % 0x80 == opcode && DecodeI(op, w) == Instruction(i)
  {
    hide GetInst, Signext, Rd, Funct3, Rs1, Rs2, Funct7, Fields;
    Halves(imm, 0x20);
    FieldsRead(opcode, i.rd, f3, i.rs1, imm % 0x20, imm / 0x20);
    var w := EncodeI(opcode, f3, i, imm);
    DivideTwice(w, 0x10_0000, 0x40);
  }

  lemma DivideTwice(w: nat, m: nat, n: nat)
    requires m > 0 && n > 0
    ensures m * n > 0 && w / m / n == w / (m * n)
  {
    var q, r := w / m, w % m;
    var q', r' := q / n, q % n;
    MulLeNat(r', n - 1, m);
    assert w == (m * n) * q' + (m * r' + r) by {
      assert w == m * q + r && q == n * q' + r';
      assert m * (n * q') == (m * n) * q';
    }
    assert m * r' + r < m * n;
    ModUnique(w, m * n, q', m * r' + r);
  }

  lemma MulLeNat(x: nat, y: nat, k: nat)
    requires x <= y
    ensures k * x <= k * y && x * k <= y * k
  {
  }

  lemma BackR(op: RvdOperation, opcode: nat, f3: nat, f7: nat, i: RvInst, l: nat)
    requires opcode < 0x80 && f3 < 8 && f7 < 0x80 && i.imm == 0 && GetInst(op, f3, f7) == Some((i.op, l))
    ensures var w := Fields(opcode, i.rd, f3, i.rs1, i.rs2, f7);
            w < 0x1_0000_0000 && w % 0x80 == opcode && DecodeR(op, w) == Instruction(i)
  {
    hide GetInst, Rd, Funct3, Rs1, Rs2, Funct7, Fields;
    FieldsRead(opcode, i.rd, f3, i.rs1, i.rs2, f7);
  }

  /** The ordering bits of an atomic instruction, which the decoder ignores. */
  lemma BackOrdered(f5: nat, wide: bool, i: RvInst, l: nat, o: nat)
    requires f5 < 0x20 && o < 4 && i.imm == 0 && GetInst(AmoTree(), if wide then 3 else 2, f5) == Some((i.op, l))
    ensures var w := EncodeAmo(f5, wide, i) + 0x200_0000 * o;
            w < 0x1_0000_0000 && w % 0x80 == 47 && DecodeA(AmoTree(), w) == Instruction(i)
  {
    hide GetInst, Rd, Funct3, Rs1, Rs2, AmoTree;
    var w := EncodeAmo(f5, wide, i) + 0x200_0000 * o;
    assert w == Fields(47, i.rd, if wide then 3 else 2, i.rs1, i.rs2, f5 * 4 + o);
    hide Fields, EncodeAmo;
    FieldsRead(47, i.rd, if wide then 3 else 2, i.rs1, i.rs2, f5 * 4 + o);
    DivideTwice(w, 0x200_0000, 4);
    ModUnique(f5 * 4 + o, 4, f5, o);
  }

  lemma BackS(op: RvdOperation, opcode: nat, f3: nat, i: RvInst, imm: nat, l: nat)
    requires opcode < 0x80 && f3 < 8 && imm < 0x1000 && i.rd == 0 && i.imm == Signext(imm, 0x800)
    requires GetInst(op, f3, 0) == Some((i.op, l))
    ensures var w := EncodeS(opcode, f3, i, imm);
            w < 0x1_0000_0000 && w % 0x80 == opcode && DecodeS(op, w) == Instruction(i)
  {
    hide GetInst, Signext, Rd, Funct3, Rs1, Rs2, Funct7, Fields;
    Halves(imm, 0x20);
    FieldsRead(opcode, imm % 0x20, f3, i.rs1, i.rs2, imm / 0x20);
  }

  /** The pieces of the rd and funct7 fields. */
  lemma PiecesRead(w: u32, low: nat, bit: nat, top: nat, mid: nat)
    requires Rd(w) == low * 2 + bit && Funct7(w) == top * 0x40 + mid && bit < 2 && low < 0x10 && mid < 0x40
    ensures w / 0x80 % 2 == bit && w / 0x100 % 0x10 == low
    ensures w / 0x200_0000 % 0x40 == mid && w / 0x8000_0000 == top
  {
    var q := w / 0x80 / 0x20;
    assert w / 0x80 == 0x20 * q + (low * 2 + bit);
    ModUnique(w / 0x80, 2, 0x10 * q + low, bit);
    DivideTwice(w, 0x80, 2);
    ModUnique(w / 0x100, 0x10, q, low);
    ModUnique(w / 0x200_0000, 0x40, top, mid);
    DivideTwice(w, 0x200_0000, 0x40);
  }

  lemma BackB(op: RvdOperation, opcode: nat, f3: nat, i: RvInst, imm: nat, l: nat)
    requires opcode < 0x80 && f3 < 8 && imm < 0x2000 && imm % 2 == 0 && i.rd == 0 && i.imm == Signext(imm, 0x1000)
    requires GetInst(op, f3, 0) == Some((i.op, l))
    ensures var w := EncodeB(opcode, f3, i, imm);
            w < 0x1_0000_0000 && w % 0x80 == opcode && DecodeB(op, w) == Instruction(i)
  {
    hide GetInst, Signext, Rd, Funct3, Rs1, Rs2, Funct7, Fields;
    var low, bit, top, mid := imm / 2 % 0x10, imm / 0x800 % 2, imm / 0x1000, imm / 0x20 % 0x40;
    BranchPieces(imm);
    FieldsRead(opcode, low * 2 + bit, f3, i.rs1, i.rs2, top * 0x40 + mid);
    PiecesRead(EncodeB(opcode, f3, i, imm), low, bit, top, mid);
  }

  /** A word with a 20-bit upper part. */
  lemma UpperRead(op: nat, rd: nat, upper: nat)
    requires op < 0x80 && rd < 0x20 && upper < 0x10_0000
    ensures var w := op + 0x80 * rd + 0x1000 * upper;
            w < 0x1_0000_0000 && w % 0x80 == op && Rd(w) == rd && w / 0x1000 == upper
  {
    var w := op + 0x80 * rd + 0x1000 * upper;
    ModUnique(w, 0x80, rd + 0x20 * upper, op);
    ModUnique(w / 0x80, 0x20, upper, rd);
    ModUnique(w, 0x1000, upper, op + 0x80 * rd);
  }

  lemma BackU(opcode: nat, i: RvInst)
    requires opcode < 0x80 && i.rs1 == 0 && i.rs2 == 0 && i.imm % 0x1000 == 0
    ensures var w := EncodeU(opcode, i, Unsigned(i.imm, 0x1_0000_0000) / 0x1000);
            w < 0x1_0000_0000 && w % 0x80 == opcode && DecodeU(Only(i.op), w) == Instruction(i)
  {
    var u := Unsigned(i.imm, 0x1_0000_0000);
    UpperRead(opcode, i.rd, u / 0x1000);
    hide Rd;
  }

  lemma JumpRead(w: u32, top: nat, low: nat, bit: nat, mid: nat)
    requires w / 0x1000 == top * 0x8_0000 + low * 0x200 + bit * 0x100 + mid
    requires top < 2 && low < 0x400 && bit < 2 && mid < 0x100
    ensures w / 0x8000_0000 == top && w / 0x20_0000 % 0x400 == low && w / 0x10_0000 % 2 == bit && w / 0x1000 % 0x100 == mid
  {
    var u := w / 0x1000;
    DivideTwice(w, 0x1000, 0x8_0000);
    DivideTwice(w, 0x1000, 0x200);
    DivideTwice(w, 0x1000, 0x100);
    ModUnique(u, 0x8_0000, top, low * 0x200 + bit * 0x100 + mid);
    ModUnique(u, 0x200, top * 0x400 + low, bit * 0x100 + mid);
    ModUnique(u / 0x200, 0x400, top, low);
    ModUnique(u, 0x100, top * 0x800 + low * 2 + bit, mid);
    ModUnique(u / 0x100, 2, top * 0x400 + low, bit);
  }

  lemma BackJ(opcode: nat, i: RvInst, imm: nat)
    requires opcode < 0x80 && i.rs1 == 0 && i.rs2 == 0 && imm < 0x20_0000 && imm % 2 == 0
    requires i.imm == Signext(imm, 0x10_0000)
    ensures var w := EncodeJ(opcode, i, imm);
            w < 0x1_0000_0000 && w % 0x80 == opcode && DecodeJ(Only(i.op), w) == Instruction(i)
  {
    hide Signext, Rd;
    var top, low, bit, mid := imm / 0x10_0000, imm / 2 % 0x400, imm / 0x800 % 2, imm / 0x1000 % 0x100;
    JumpPieces(imm);
    UpperRead(opcode, i.rd, top * 0x8_0000 + low * 0x200 + bit * 0x100 + mid);
    JumpRead(EncodeJ(opcode, i, imm), top, low, bit, mid);
  }

  // ---- the round trip ----

  lemma BackOpImm(f: AluOp, i: RvInst)
    requires i.op == OpImm(f) && Canonical(i)
    ensures Encode(i) < 0x1_0000_0000 && Decode(Encode(i)) == Instruction(i)
  {
    hide GetInst, Signext, EncodeI, DecodeI, OpImmTree, OpImm32Tree, Unsigned;
    var imm := if IsShift(f) then i.imm + (if f.SRA? || f.SRAW? then 0x400 else 0) else Unsigned(i.imm, 0x1000);
    if IsShift(f) {
      ModUnique(imm, 0x40, if f.SRA? || f.SRAW? then 16 else 0, i.imm);
    } else {
      SignextBack(i.imm, 0x800);
    }
    OpImmLookup(f, imm / 0x40);
    BackI(if IsWord(f) then OpImm32Tree() else OpImmTree(), if IsWord(f) then 27 else 19, AluFunct3(f), i, imm,
          if IsShift(f) then 2 else 1);
  }

  lemma BackMemory(i: RvInst)
    requires (i.op.Load? || i.op.Store? || i.op.Jalr? || i.op.Branch?) && Canonical(i)
    ensures Encode(i) < 0x1_0000_0000 && Decode(Encode(i)) == Instruction(i)
  {
    hide GetInst, Signext, EncodeI, DecodeI, EncodeS, DecodeS, EncodeB, DecodeB, LoadTree, StoreTree, BranchTree, Unsigned;
    SignextBack(i.imm, if i.op.Branch? then 0x1000 else 0x800);
    match i.op
    case Load(load) =>
      LoadLookup(load, Unsigned(i.imm, 0x1000) / 0x40);
      BackI(LoadTree(), 3, LoadFunct(load), i, Unsigned(i.imm, 0x1000), 1);
    case Jalr =>
      JalrLookup(Unsigned(i.imm, 0x1000) / 0x40);
      BackI(JalrTree(), 103, 0, i, Unsigned(i.imm, 0x1000), 1);
    case Store(store) =>
      StoreLookup(store);
      BackS(StoreTree(), 35, StoreFunct(store), i, Unsigned(i.imm, 0x1000), 1);
    case Branch(cond) =>
      BranchLookup(cond);
      EvenBack(i.imm, 0x2000);
      BackB(BranchTree(), 99, CondFunct(cond), i, Unsigned(i.imm, 0x2000), 1);
  }

  lemma JalrLookup(i2: nat)
    ensures GetInst(JalrTree(), 0, i2) == Some((Jalr, 1))
  {
  }

  lemma EvenBack(imm: int, modulus: nat)
    requires imm % 2 == 0 && modulus % 2 == 0
    ensures Unsigned(imm, modulus) % 2 == 0
  {
  }

  lemma BackSystem(i: RvInst)
    requires (i.op.Fence? || i.op.FenceI? || i.op.Ecall? || i.op.Ebreak?) && Canonical(i)
    ensures Encode(i) < 0x1_0000_0000 && Decode(Encode(i)) == Instruction(i)
  {
    hide GetInst, DecodeI, DecodeR, DecodeS, DecodeB, DecodeU, DecodeJ, DecodeA, Fields,
      LoadTree, FenceTree, OpImmTree, OpImm32Tree, StoreTree, AmoTree, OpTree, Op32Tree, BranchTree, JalrTree, SystemTree;
    FieldsRead(15, 0, 0, 0, 0, 0);
    FieldsRead(15, 0, 1, 0, 0, 0);
    FieldsRead(115, 0, 0, 0, 0, 0);
    FieldsRead(115, 0, 0, 0, 1, 0);
    SystemWords();
  }

  lemma SystemWords()
    ensures Fields(15, 0, 0, 0, 0, 0) == 15 && Fields(15, 0, 1, 0, 0, 0) == 0x100F
    ensures Fields(115, 0, 0, 0, 0, 0) == 115 && Fields(115, 0, 0, 0, 1, 0) == 0x10_0073
  {
  }

  lemma BackRegister(i: RvInst)
    requires (i.op.OpReg? || i.op.Amo? || i.op.Lr? || i.op.Sc?) && Canonical(i)
    ensures Encode(i) < 0x1_0000_0000 && Decode(Encode(i)) == Instruction(i)
  {
    hide GetInst, DecodeI, DecodeR, DecodeS, DecodeB, DecodeU, DecodeJ, DecodeA, DecodeC, DecodeF, EncodeAmo, Fields, AmoFunct5,
      AluFunct3, AluFunct7, IsWord, LoadTree, FenceTree, OpImmTree, OpImm32Tree, StoreTree, AmoTree, OpTree, Op32Tree, BranchTree, JalrTree, SystemTree;
    match i.op
    case OpReg(f) =>
      OpLookup(f);
      AluFunctsOk(f);
      BackR(if IsWord(f) then Op32Tree() else OpTree(), if IsWord(f) then 59 else 51, AluFunct3(f), AluFunct7(f), i, 2);
    case Amo(f, wide) => DecodeOrdered(i, wide, 0);
    case Lr(wide) => DecodeOrdered(i, wide, 0);
    case Sc(wide) => DecodeOrdered(i, wide, 0);
  }

  function Funct5(op: Mnemonic): nat
    requires op.Amo? || op.Lr? || op.Sc?
  {
    match op case Amo(f, _) => AmoFunct5(f) case Lr(_) => 2 case Sc(_) => 3
  }

  /** Atomic instructions with any ordering bits, and with any rs2, decode to themselves. */
  lemma DecodeOrdered(i: RvInst, wide: bool, o: nat)
    requires (i.op.Amo? && i.op.wide == wide) || i.op == Lr(wide) || i.op == Sc(wide)
    requires i.imm == 0 && o < 4
    ensures var w := EncodeAmo(Funct5(i.op), wide, i) + 0x200_0000 * o;
            w < 0x1_0000_0000 && Decode(w) == Instruction(i)
  {
    hide GetInst, DecodeI, DecodeR, DecodeS, DecodeB, DecodeU, DecodeJ, DecodeA, DecodeC, DecodeF, EncodeAmo, Fields, AmoFunct5,
      LoadTree, FenceTree, OpImmTree, OpImm32Tree, StoreTree, AmoTree, OpTree, Op32Tree, BranchTree, JalrTree, SystemTree;
    var f := if i.op.Amo? then i.op.amo else SWAP;
    AmoLookup(f, wide);
    AmoFunctOk(f);
    BackOrdered(Funct5(i.op), wide, i, 2, o);
  }

  /** A fence with any predecessor and successor sets is a fence. */
  lemma DecodeFence(ps: nat)
    requires ps < 0x100
    ensures 15 + 0x10_0000 * ps < 0x1_0000_0000
    ensures Decode(15 + 0x10_0000 * ps) == Instruction(RvInst(Fence, 0, 0, 0, 0))
  {
    hide GetInst, DecodeI, DecodeR, DecodeS, DecodeB, DecodeU, DecodeJ, DecodeA, Fields, LoadTree, FenceTree, OpImmTree,
      OpImm32Tree, StoreTree, AmoTree, OpTree, Op32Tree, BranchTree, JalrTree, SystemTree;
    FenceFields(ps);
    FieldsRead(15, 0, 0, 0, ps % 0x20, ps / 0x20);
    DivideTwice(15 + 0x10_0000 * ps, 0x10_0000, 0x100);
  }

  lemma FenceFields(ps: nat)
    ensures 15 + 0x10_0000 * ps == Fields(15, 0, 0, 0, ps % 0x20, ps / 0x20)
  {
  }

  lemma AluFunctsOk(f: AluOp)
    ensures AluFunct3(f) < 8 && AluFunct7(f) < 0x80
  {
  }

  lemma AmoFunctOk(f: AmoOp)
    ensures AmoFunct5(f) < 0x20
  {
  }

  lemma BackUpper(i: RvInst)
    requires (i.op.Lui? || i.op.Auipc? || i.op.Jal?) && Canonical(i)
    ensures Encode(i) < 0x1_0000_0000 && Decode(Encode(i)) == Instruction(i)
  {
    hide GetInst, DecodeI, DecodeR, DecodeS, DecodeB, DecodeU, DecodeJ, DecodeA, DecodeC, DecodeF, EncodeU, EncodeJ,
      Unsigned, Signext, LoadTree, FenceTree, OpImmTree, OpImm32Tree, StoreTree, AmoTree, OpTree, Op32Tree, BranchTree, JalrTree, SystemTree;
    match i.op
    case Lui => BackU(55, i);
    case Auipc => BackU(23, i);
    case Jal =>
      SignextBack(i.imm, 0x10_0000);
      EvenBack(i.imm, 0x20_0000);
      BackJ(111, i, Unsigned(i.imm, 0x20_0000));
  }

  /** Decoding inverts encoding: every RV64IMA instruction, in every operand combination, is decoded
      from its ISA encoding to itself. */
  lemma DecodeEncode(i: RvInst)
    requires Canonical(i)
    ensures Encode(i) < 0x1_0000_0000 && Decode(Encode(i)) == Instruction(i)
  {
    hide Encode, Decode, Canonical;
    match i.op
    case OpImm(f) => BackOpImm(f, i);
    case OpReg(_) => BackRegister(i);
    case Amo(_, _) => BackRegister(i);
    case Lr(_) => BackRegister(i);
    case Sc(_) => BackRegister(i);
    case Lui => BackUpper(i);
    case Auipc => BackUpper(i);
    case Jal => BackUpper(i);
    case Load(_) => BackMemory(i);
    case Store(_) => BackMemory(i);
    case Jalr => BackMemory(i);
    case Branch(_) => BackMemory(i);
    case Fence => BackSystem(i);
    case FenceI => BackSystem(i);
    case Ecall => BackSystem(i);
    case Ebreak => BackSystem(i);
  }

  // ---- what comes out of the decoder can be translated ----

  /** Names of the tree, apart from the atomic ones. */
  predicate NameOk(name: Mnemonic) {
    (name.OpImm? ==> HasImmForm(name.f)) && !name.Lr?
  }

  predicate NamesOk(op: RvdOperation) {
    match op
    case Only(name) => NameOk(name)
    case Tree(first) => forall k :: k in first ==> BranchOk(first[k])
  }

  predicate BranchOk(b: RvdBranch) {
    match b
    case Leaf(name) => NameOk(name)
    case Fork(second) => forall k :: k in second ==> NameOk(second[k])
  }

  lemma FoundOk(op: RvdOperation, i1: nat, i2: nat)
    requires NamesOk(op) && GetInst(op, i1, i2).Some?
    ensures NameOk(GetInst(op, i1, i2).value.0)
  {
    hide NameOk;
    if op.Tree? {
      assert BranchOk(op.first[i1]);
    }
  }

  lemma MemoryTreesOk()
    ensures NamesOk(LoadTree()) && NamesOk(StoreTree()) && NamesOk(BranchTree()) && NamesOk(JalrTree())
  {
  }

  lemma OpImmTreesOk()
    ensures NamesOk(OpImmTree()) && NamesOk(OpImm32Tree())
  {
  }

  lemma OpTreesOk()
    ensures NamesOk(OpTree()) && NamesOk(Op32Tree())
  {
  }

  /** All trees but the atomic one hold only such names. */
  lemma InfoOk(opcode: nat)
    requires InfoOf(opcode).Some? && opcode != 47
    ensures InfoOf(opcode).value.t.CType? || InfoOf(opcode).value.t.FType? || NamesOk(InfoOf(opcode).value.op)
    ensures !InfoOf(opcode).value.t.AType?
  {
    hide LoadTree, FenceTree, OpImmTree, OpImm32Tree, StoreTree, AmoTree, OpTree, Op32Tree, BranchTree, JalrTree, SystemTree;
    MemoryTreesOk();
    OpImmTreesOk();
    OpTreesOk();
  }

  /** Whatever decodes is an instruction that exists. */
  lemma DecodedEncodable(w: u32)
    requires Decode(w).Instruction?
    ensures Encodable(Decode(w).i)
  {
    hide InfoOf, GetInst, NamesOk, Rd, Rs1, Rs2, Funct7, Signext, AmoTree;
    var info := InfoOf(w % 0x80).value;
    if w % 0x80 == 47 {
      AtomicInfo();
      AtomicNames(Funct3(w), w / 0x800_0000);
    } else {
      InfoOk(w % 0x80);
      if !info.t.CType? && !info.t.FType? {
        NamesFound(info.op);
      }
    }
  }

  lemma NamesFound(op: RvdOperation)
    requires NamesOk(op)
    ensures forall i1: nat, i2: nat :: GetInst(op, i1, i2).Some? ==> NameOk(GetInst(op, i1, i2).value.0)
  {
    forall i1: nat, i2: nat | GetInst(op, i1, i2).Some?
      ensures NameOk(GetInst(op, i1, i2).value.0)
    {
      FoundOk(op, i1, i2);
    }
  }

  lemma AtomicInfo()
    ensures InfoOf(47) == Some(RvdInfo(AType, AmoTree()))
  {
    hide AmoTree;
  }

  lemma AtomicNames(i1: nat, i2: nat)
    requires GetInst(AmoTree(), i1, i2).Some?
    ensures !GetInst(AmoTree(), i1, i2).value.0.OpImm?
  {
  }
}
