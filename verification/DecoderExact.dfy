/** Which words decode to an instruction: its encodings, and no others. */
module DecoderExact {
  import opened Words
  import opened Wrappers
  import opened Riscv
  import opened Decoder

  /** All words that encode an instruction. The decoder ignores the ordering bits of atomic instructions
      and the sets of a fence, takes 6-bit shift amounts in the word forms as well, and treats as ecall
      every system word with funct3 0 that is not ebreak. */
  ghost predicate Denotes(w: u32, i: RvInst) {
    match i.op
    case Amo(_, wide) => i.imm == 0 && Ordered(w, wide, i)
    case Lr(wide) => i.imm == 0 && Ordered(w, wide, i)
    case Sc(wide) => i.imm == 0 && Ordered(w, wide, i)
    case Fence => i == RvInst(Fence, 0, 0, 0, 0) && FencedBy(w)
    case Ecall => i == RvInst(Ecall, 0, 0, 0, 0) && w % 0x80 == 115 && Funct3(w) == 0 && w != 0x10_0073
    case OpImm(f) => ImmediateForm(f, i) && w == EncodeImmediate(f, i)
    case _ => Canonical(i) && w == Encode(i)
  }

  ghost predicate Ordered(w: u32, wide: bool, i: RvInst)
    requires i.op.Amo? || i.op.Lr? || i.op.Sc?
  {
    exists o :: OrderedBy(w, wide, i, o)
  }

  predicate OrderedBy(w: u32, wide: bool, i: RvInst, o: nat)
    requires i.op.Amo? || i.op.Lr? || i.op.Sc?
  {
    o < 4 && w == EncodeAmo(Funct5(i.op), wide, i) + 0x200_0000 * o
  }

  ghost predicate FencedBy(w: u32) {
    exists ps :: FencedWith(w, ps)
  }

  predicate FencedWith(w: u32, ps: nat) {
    ps < 0x100 && w == 15 + 0x10_0000 * ps
  }

  predicate ImmediateForm(f: AluOp, i: RvInst) {
    i.rs2 == 0 && HasImmForm(f) && (if IsShift(f) then 0 <= i.imm < 64 else FitsSigned(i.imm, 0x800))
  }

  function ImmediateBits(f: AluOp, imm: int): int {
    if IsShift(f) then imm + (if f.SRA? || f.SRAW? then 0x400 else 0) else Unsigned(imm, 0x1000)
  }

  function EncodeImmediate(f: AluOp, i: RvInst): int
    requires ImmediateForm(f, i)
  {
    EncodeI(if IsWord(f) then 27 else 19, AluFunct3(f), i, ImmediateBits(f, i.imm))
  }

  // ---- words and their fields ----

  /** Every word is made of its fields. */
  lemma OfFields(w: u32)
    ensures w == Fields(w % 0x80, Rd(w), Funct3(w), Rs1(w), Rs2(w), Funct7(w)) && Funct7(w) < 0x80
    ensures w / 0x10_0000 == Rs2(w) + 0x20 * Funct7(w)
    ensures w / 0x1000 == Funct3(w) + 8 * Rs1(w) + 0x100 * Rs2(w) + 0x2000 * Funct7(w)
    ensures w == w % 0x80 + 0x80 * Rd(w) + 0x1000 * (w / 0x1000)
  {
    DivideTwice(w, 0x80, 0x20);
    DivideTwice(w, 0x1000, 8);
    DivideTwice(w, 0x8000, 0x20);
    DivideTwice(w, 0x10_0000, 0x20);
  }

  lemma UnsignedBack(v: nat, sign: nat)
    requires sign > 0 && v < 2 * sign
    ensures FitsSigned(Signext(v, sign), sign) && Unsigned(Signext(v, sign), 2 * sign) == v
  {
    if v < sign {
      ModUnique(v, sign, 0, v);
    } else {
      ModUnique(v, sign, 1, v - sign);
    }
  }

  // ---- lookups, backwards ----

  lemma LoadFrom(f3: nat, i2: nat)
    requires GetInst(LoadTree(), f3, i2).Some?
    ensures var (name, l) := GetInst(LoadTree(), f3, i2).value; l == 1 && name.Load? && LoadFunct(name.load) == f3
  {
  }

  lemma StoreFrom(f3: nat)
    requires GetInst(StoreTree(), f3, 0).Some?
    ensures var (name, l) := GetInst(StoreTree(), f3, 0).value; name.Store? && StoreFunct(name.store) == f3
  {
  }

  lemma BranchFrom(f3: nat)
    requires GetInst(BranchTree(), f3, 0).Some?
    ensures var (name, l) := GetInst(BranchTree(), f3, 0).value; name.Branch? && CondFunct(name.cond) == f3
  {
  }

  lemma JalrFrom(f3: nat, i2: nat)
    requires GetInst(JalrTree(), f3, i2).Some?
    ensures GetInst(JalrTree(), f3, i2) == Some((Jalr, 1)) && f3 == 0
  {
  }

  lemma OpFrom(f3: nat, f7: nat)
    requires GetInst(OpTree(), f3, f7).Some?
    ensures var (name, l) := GetInst(OpTree(), f3, f7).value;
            name.OpReg? && !IsWord(name.f) && AluFunct3(name.f) == f3 && AluFunct7(name.f) == f7
  {
    hide AluFunct3, AluFunct7, IsWord;
    var (name, l) := GetInst(OpTree(), f3, f7).value;
    FunctsOf(name.f);
  }

  /** The functions of the operations that are not word operations. */
  lemma FunctsOf(f: AluOp)
    ensures f.ADD? || f.SUB? || f.SLL? || f.SLT? || f.SLTU? || f.XOR? || f.SRL? || f.SRA? || f.OR? || f.AND? ==>
              !IsWord(f) && AluFunct7(f) == (if f.SUB? || f.SRA? then 32 else 0)
    ensures f.MUL? || f.MULH? || f.MULHSU? || f.MULHU? || f.DIV? || f.DIVU? || f.REM? || f.REMU? ==>
              !IsWord(f) && AluFunct7(f) == 1
    ensures !IsWord(f) ==>
              AluFunct3(f) == if f.ADD? || f.SUB? || f.MUL? then 0 else if f.SLL? || f.MULH? then 1
                              else if f.SLT? || f.MULHSU? then 2 else if f.SLTU? || f.MULHU? then 3
                              else if f.XOR? || f.DIV? then 4 else if f.SRL? || f.SRA? || f.DIVU? then 5
                              else if f.OR? || f.REM? then 6 else 7
  {
  }

  lemma OpWordFrom(f3: nat, f7: nat)
    requires GetInst(Op32Tree(), f3, f7).Some?
    ensures var (name, l) := GetInst(Op32Tree(), f3, f7).value;
            name.OpReg? && IsWord(name.f) && AluFunct3(name.f) == f3 && AluFunct7(name.f) == f7
  {
  }

  lemma OpImmFrom(f3: nat, i2: nat)
    requires GetInst(OpImmTree(), f3, i2).Some?
    ensures var (name, l) := GetInst(OpImmTree(), f3, i2).value;
            && name.OpImm? && HasImmForm(name.f) && !IsWord(name.f) && AluFunct3(name.f) == f3
            && l == (if IsShift(name.f) then 2 else 1) && (l == 2 ==> i2 == AluFunct7(name.f) / 2)
  {
  }

  lemma OpImmWordFrom(f3: nat, i2: nat)
    requires GetInst(OpImm32Tree(), f3, i2).Some?
    ensures var (name, l) := GetInst(OpImm32Tree(), f3, i2).value;
            && name.OpImm? && HasImmForm(name.f) && IsWord(name.f) && AluFunct3(name.f) == f3
            && l == (if IsShift(name.f) then 2 else 1) && (l == 2 ==> i2 == AluFunct7(name.f) / 2)
  {
  }

  lemma AmoFrom(f3: nat, f5: nat)
    requires GetInst(AmoTree(), f3, f5).Some?
    ensures var (name, l) := GetInst(AmoTree(), f3, f5).value;
            && (name.Amo? || name.Lr? || name.Sc?) && Funct5(name) == f5 && f3 == if name.wide then 3 else 2
  {
  }

  // ---- formats, backwards ----

  lemma FromLoad(w: u32, i: RvInst)
    requires w % 0x80 == 3 && DecodeI(LoadTree(), w) == Instruction(i)
    ensures i.op.Load? && Denotes(w, i)
  {
    hide GetInst, LoadTree, Signext, Rd, Funct3, Rs1, Rs2, Funct7, Fields, Unsigned;
    LoadFrom(Funct3(w), w / 0x400_0000);
    FromSigned(w);
  }

  /** The fields of a signed 12-bit immediate in the upper bits. */
  lemma FromSigned(w: u32)
    ensures var v := w / 0x10_0000;
            && FitsSigned(Signext(v, 0x800), 0x800) && Unsigned(Signext(v, 0x800), 0x1000) == v
            && w == Fields(w % 0x80, Rd(w), Funct3(w), Rs1(w), v % 0x20, v / 0x20)
  {
    OfFields(w);
    var v := w / 0x10_0000;
    UnsignedBack(v, 0x800);
    hide Rd, Funct3, Rs1, Funct7, Fields, Signext, Unsigned;
    ModUnique(v, 0x20, Funct7(w), Rs2(w));
  }

  lemma FromJalr(w: u32, i: RvInst)
    requires w % 0x80 == 103 && DecodeI(JalrTree(), w) == Instruction(i)
    ensures i.op.Jalr? && Denotes(w, i)
  {
    hide GetInst, JalrTree, Signext, Rd, Funct3, Rs1, Rs2, Funct7, Fields, Unsigned;
    JalrFrom(Funct3(w), w / 0x400_0000);
    FromSigned(w);
  }

  lemma FromImmediate(w: u32, i: RvInst)
    requires w % 0x80 == 19 && DecodeI(OpImmTree(), w) == Instruction(i)
    ensures i.op.OpImm? && Denotes(w, i)
  {
    hide GetInst, OpImmTree, Signext, Rd, Funct3, Rs1, Rs2, Funct7, Fields, Unsigned, AluFunct3, AluFunct7, IsShift, HasImmForm, IsWord;
    OpImmFrom(Funct3(w), w / 0x400_0000);
    FromSigned(w);
    if IsShift(i.op.f) { FromShift(w, i.op.f); }
  }

  lemma FromImmediateWord(w: u32, i: RvInst)
    requires w % 0x80 == 27 && DecodeI(OpImm32Tree(), w) == Instruction(i)
    ensures i.op.OpImm? && Denotes(w, i)
  {
    hide GetInst, OpImm32Tree, Signext, Rd, Funct3, Rs1, Rs2, Funct7, Fields, Unsigned, AluFunct3, AluFunct7, IsShift, HasImmForm, IsWord;
    OpImmWordFrom(Funct3(w), w / 0x400_0000);
    FromSigned(w);
    if IsShift(i.op.f) { FromShift(w, i.op.f); }
  }

  /** The shift amount and the bits above it. */
  lemma FromShift(w: u32, f: AluOp)
    requires IsShift(f) && HasImmForm(f) && w / 0x400_0000 == AluFunct7(f) / 2
    ensures w / 0x10_0000 == w / 0x10_0000 % 0x40 + (if f.SRA? || f.SRAW? then 0x400 else 0)
  {
    DivideTwice(w, 0x10_0000, 0x40);
  }

  lemma FromStore(w: u32, i: RvInst)
    requires w % 0x80 == 35 && DecodeS(StoreTree(), w) == Instruction(i)
    ensures i.op.Store? && Denotes(w, i)
  {
    OfFields(w);
    hide GetInst, StoreTree, Signext, Rd, Funct3, Rs1, Rs2, Funct7, Fields, Unsigned;
    StoreFrom(Funct3(w));
    var v := Funct7(w) * 0x20 + Rd(w);
    ModUnique(v, 0x20, Funct7(w), Rd(w));
    UnsignedBack(v, 0x800);
  }

  /** The pieces of a branch offset, from the fields they are in. */
  lemma BranchBits(w: u32)
    ensures var v := w / 0x8000_0000 * 0x1000 + w / 0x80 % 2 * 0x800 + w / 0x200_0000 % 0x40 * 0x20 + w / 0x100 % 0x10 * 2;
            && v < 0x2000 && v % 2 == 0
            && v / 2 % 0x10 * 2 + v / 0x800 % 2 == Rd(w) && v / 0x1000 * 0x40 + v / 0x20 % 0x40 == Funct7(w)
  {
    var top, bit, mid, low := w / 0x8000_0000, w / 0x80 % 2, w / 0x200_0000 % 0x40, w / 0x100 % 0x10;
    BranchParts(top, bit, mid, low);
    DivideTwice(w, 0x200_0000, 0x40);
    DivideTwice(w, 0x80, 2);
    var u := w / 0x80;
    assert u % 0x20 == u / 2 % 0x10 * 2 + u % 2;
  }

  lemma BranchParts(top: nat, bit: nat, mid: nat, low: nat)
    requires top < 2 && bit < 2 && mid < 0x40 && low < 0x10
    ensures var v := top * 0x1000 + bit * 0x800 + mid * 0x20 + low * 2;
            && v < 0x2000 && v % 2 == 0 && v / 2 % 0x10 == low && v / 0x800 % 2 == bit && v / 0x20 % 0x40 == mid && v / 0x1000 == top
  {
    var v := top * 0x1000 + bit * 0x800 + mid * 0x20 + low * 2;
    ModUnique(v, 2, top * 0x800 + bit * 0x400 + mid * 0x10 + low, 0);
    ModUnique(v / 2, 0x10, top * 0x80 + bit * 0x40 + mid, low);
    ModUnique(v, 0x20, top * 0x80 + bit * 0x40 + mid, low * 2);
    ModUnique(v / 0x20, 0x40, top * 2 + bit, mid);
    ModUnique(v, 0x800, top * 2 + bit, mid * 0x20 + low * 2);
    ModUnique(v / 0x800, 2, top, bit);
    ModUnique(v, 0x1000, top, bit * 0x800 + mid * 0x20 + low * 2);
  }

  lemma FromBranch(w: u32, i: RvInst)
    requires w % 0x80 == 99 && DecodeB(BranchTree(), w) == Instruction(i)
    ensures i.op.Branch? && Denotes(w, i)
  {
    OfFields(w);
    BranchBits(w);
    hide GetInst, BranchTree, Signext, Rd, Funct3, Rs1, Rs2, Funct7, Fields, Unsigned;
    BranchFrom(Funct3(w));
    var v := w / 0x8000_0000 * 0x1000 + w / 0x80 % 2 * 0x800 + w / 0x200_0000 % 0x40 * 0x20 + w / 0x100 % 0x10 * 2;
    UnsignedBack(v, 0x1000);
    EvenSigned(v, 0x1000);
  }

  lemma EvenSigned(v: nat, sign: nat)
    requires sign > 0 && v % 2 == 0
    ensures Signext(v, sign) % 2 == 0
  {
  }

  lemma FromUpper(w: u32, i: RvInst, op: Mnemonic)
    requires w % 0x80 == (if op.Lui? then 55 else 23) && (op.Lui? || op.Auipc?) && DecodeU(Only(op), w) == Instruction(i)
    ensures i.op == op && Denotes(w, i)
  {
    OfFields(w);
    var u := w / 0x1000 * 0x1000;
    hide Rd, Funct3, Rs1, Rs2, Funct7, Fields;
    assert u / 0x1000 == w / 0x1000 && u % 0x1000 == 0;
    SignedWord(u);
  }

  lemma SignedWord(u: u32)
    ensures Unsigned(Signed32(u), 0x1_0000_0000) == u && (u % 0x1000 == 0 ==> Signed32(u) % 0x1000 == 0)
  {
  }

  /** The pieces of a jump offset, from the upper bits they are in. */
  lemma JumpBits(w: u32)
    ensures var v := w / 0x8000_0000 * 0x10_0000 + w / 0x1000 % 0x100 * 0x1000 + w / 0x10_0000 % 2 * 0x800 + w / 0x20_0000 % 0x400 * 2;
            && v < 0x20_0000 && v % 2 == 0
            && v / 0x10_0000 * 0x8_0000 + v / 2 % 0x400 * 0x200 + v / 0x800 % 2 * 0x100 + v / 0x1000 % 0x100 == w / 0x1000
  {
    var top, mid, bit, low := w / 0x8000_0000, w / 0x1000 % 0x100, w / 0x10_0000 % 2, w / 0x20_0000 % 0x400;
    JumpParts(top, mid, bit, low);
    DivideTwice(w, 0x1000, 0x100);
    DivideTwice(w, 0x10_0000, 2);
    DivideTwice(w, 0x20_0000, 0x400);
  }

  lemma JumpParts(top: nat, mid: nat, bit: nat, low: nat)
    requires top < 2 && mid < 0x100 && bit < 2 && low < 0x400
    ensures var v := top * 0x10_0000 + mid * 0x1000 + bit * 0x800 + low * 2;
            && v < 0x20_0000 && v % 2 == 0 && v / 2 % 0x400 == low && v / 0x800 % 2 == bit && v / 0x1000 % 0x100 == mid
            && v / 0x10_0000 == top
  {
    var v := top * 0x10_0000 + mid * 0x1000 + bit * 0x800 + low * 2;
    ModUnique(v, 2, top * 0x8_0000 + mid * 0x800 + bit * 0x400 + low, 0);
    ModUnique(v / 2, 0x400, top * 0x200 + mid * 2 + bit, low);
    ModUnique(v, 0x800, top * 0x200 + mid * 2 + bit, low * 2);
    ModUnique(v / 0x800, 2, top * 0x100 + mid, bit);
    ModUnique(v, 0x1000, top * 0x100 + mid, bit * 0x800 + low * 2);
    ModUnique(v / 0x1000, 0x100, top, mid);
    ModUnique(v, 0x10_0000, top, mid * 0x1000 + bit * 0x800 + low * 2);
  }

  lemma FromJal(w: u32, i: RvInst)
    requires w % 0x80 == 111 && DecodeJ(Only(Jal), w) == Instruction(i)
    ensures i.op.Jal? && Denotes(w, i)
  {
    OfFields(w);
    JumpBits(w);
    hide Signext, Rd, Funct3, Rs1, Rs2, Funct7, Fields, Unsigned;
    var v := w / 0x8000_0000 * 0x10_0000 + w / 0x1000 % 0x100 * 0x1000 + w / 0x10_0000 % 2 * 0x800 + w / 0x20_0000 % 0x400 * 2;
    UnsignedBack(v, 0x10_0000);
    EvenSigned(v, 0x10_0000);
  }

  lemma FromRegister(w: u32, i: RvInst)
    requires w % 0x80 == 51 && DecodeR(OpTree(), w) == Instruction(i)
    ensures i.op.OpReg? && Denotes(w, i)
  {
    OfFields(w);
    hide GetInst, OpTree, Rd, Funct3, Rs1, Rs2, Funct7, Fields, AluFunct3, AluFunct7, IsWord;
    OpFrom(Funct3(w), Funct7(w));
  }

  lemma FromRegisterWord(w: u32, i: RvInst)
    requires w % 0x80 == 59 && DecodeR(Op32Tree(), w) == Instruction(i)
    ensures i.op.OpReg? && Denotes(w, i)
  {
    OfFields(w);
    hide GetInst, Op32Tree, Rd, Funct3, Rs1, Rs2, Funct7, Fields, AluFunct3, AluFunct7, IsWord;
    OpWordFrom(Funct3(w), Funct7(w));
  }

  lemma FromAtomic(w: u32, i: RvInst)
    requires w % 0x80 == 47 && DecodeA(AmoTree(), w) == Instruction(i)
    ensures (i.op.Amo? || i.op.Lr? || i.op.Sc?) && Denotes(w, i)
  {
    OfFields(w);
    var f5, o := w / 0x800_0000, Funct7(w) % 4;
    DivideTwice(w, 0x200_0000, 4);
    OrderBits(w % 0x80, Rd(w), Funct3(w), Rs1(w), Rs2(w), f5, o);
    hide GetInst, AmoTree, Rd, Funct3, Rs1, Rs2, Funct7, Fields, Funct5;
    AmoFrom(Funct3(w), f5);
    assert OrderedBy(w, i.op.wide, i, o);
  }

  lemma OrderBits(op: nat, rd: nat, f3: nat, rs1: nat, rs2: nat, f5: nat, o: nat)
    ensures Fields(op, rd, f3, rs1, rs2, f5 * 4 + o) == Fields(op, rd, f3, rs1, rs2, f5 * 4) + 0x200_0000 * o
  {
  }

  lemma FenceWord(w: u32)
    requires w % 0x80 == 15 && Funct3(w) == 0 && Rs1(w) == 0 && Rd(w) == 0 && w / 0x1000_0000 == 0
    ensures FencedWith(w, w / 0x10_0000)
  {
    OfFields(w);
    DivideTwice(w, 0x10_0000, 0x100);
    hide Rd, Funct3, Rs1, Rs2, Funct7;
  }

  lemma FenceIWord(w: u32)
    requires w % 0x80 == 15 && Funct3(w) == 1 && w / 0x8000 == 0 && Rd(w) == 0
    ensures w == 0x100F
  {
    OfFields(w);
    hide Rd, Fields;
  }

  lemma FromFence(w: u32, i: RvInst)
    requires w % 0x80 == 15 && DecodeF(w) == Instruction(i)
    ensures (i.op.Fence? || i.op.FenceI?) && Denotes(w, i)
  {
    hide Rd, Funct3, Rs1;
    SystemWords();
    if Funct3(w) == 0 {
      FenceWord(w);
    } else {
      FenceIWord(w);
    }
  }

  lemma FromSystem(w: u32, i: RvInst)
    requires w % 0x80 == 115 && DecodeC(w) == Instruction(i)
    ensures (i.op.Ecall? || i.op.Ebreak?) && Denotes(w, i)
  {
  }

  // ---- both directions ----

  /** What decodes is an encoding. */
  lemma DecodedDenotes(w: u32, i: RvInst)
    requires Decode(w) == Instruction(i)
    ensures Denotes(w, i)
  {
    hide GetInst, DecodeI, DecodeR, DecodeS, DecodeB, DecodeU, DecodeJ, DecodeA, DecodeC, DecodeF, Denotes, LoadTree, FenceTree,
      OpImmTree, OpImm32Tree, StoreTree, AmoTree, OpTree, Op32Tree, BranchTree, JalrTree, SystemTree;
    var opcode := w % 0x80;
    if opcode == 3 { FromLoad(w, i); }
    else if opcode == 15 { FromFence(w, i); }
    else if opcode == 19 { FromImmediate(w, i); }
    else if opcode == 23 { FromUpper(w, i, Auipc); }
    else if opcode == 27 { FromImmediateWord(w, i); }
    else if opcode == 35 { FromStore(w, i); }
    else if opcode == 47 { FromAtomic(w, i); }
    else if opcode == 51 { FromRegister(w, i); }
    else if opcode == 55 { FromUpper(w, i, Lui); }
    else if opcode == 59 { FromRegisterWord(w, i); }
    else if opcode == 99 { FromBranch(w, i); }
    else if opcode == 103 { FromJalr(w, i); }
    else if opcode == 111 { FromJal(w, i); }
    else { FromSystem(w, i); }
  }

  lemma ImmediateDecodes(f: AluOp, i: RvInst)
    requires i.op == OpImm(f) && ImmediateForm(f, i)
    ensures 0 <= EncodeImmediate(f, i) < 0x1_0000_0000 && Decode(EncodeImmediate(f, i)) == Instruction(i)
  {
    hide GetInst, Signext, EncodeI, DecodeI, OpImmTree, OpImm32Tree, Unsigned;
    var imm := ImmediateBits(f, i.imm);
    if IsShift(f) {
      ModUnique(imm, 0x40, if f.SRA? || f.SRAW? then 16 else 0, i.imm);
    } else {
      SignextBack(i.imm, 0x800);
    }
    OpImmLookup(f, imm / 0x40);
    BackI(if IsWord(f) then OpImm32Tree() else OpImmTree(), if IsWord(f) then 27 else 19, AluFunct3(f), i, imm,
          if IsShift(f) then 2 else 1);
  }

  lemma EcallDecodes(w: u32)
    requires w % 0x80 == 115 && Funct3(w) == 0 && w != 0x10_0073
    ensures Decode(w) == Instruction(RvInst(Ecall, 0, 0, 0, 0))
  {
    hide GetInst, DecodeI, DecodeR, DecodeS, DecodeB, DecodeU, DecodeJ, DecodeA, Funct3, LoadTree, FenceTree,
      OpImmTree, OpImm32Tree, StoreTree, AmoTree, OpTree, Op32Tree, BranchTree, JalrTree, SystemTree;
  }

  lemma OrderedDecodes(w: u32, i: RvInst, wide: bool)
    requires (i.op.Amo? && i.op.wide == wide) || i.op == Lr(wide) || i.op == Sc(wide)
    requires i.imm == 0 && Ordered(w, wide, i)
    ensures Decode(w) == Instruction(i)
  {
    hide Decode, EncodeAmo, Funct5;
    var o :| OrderedBy(w, wide, i, o);
    DecodeOrdered(i, wide, o);
  }

  lemma FencedDecodes(w: u32)
    requires FencedBy(w)
    ensures Decode(w) == Instruction(RvInst(Fence, 0, 0, 0, 0))
  {
    hide Decode;
    var ps :| FencedWith(w, ps);
    DecodeFence(ps);
  }

  /** All encodings decode. */
  lemma DenotedDecodes(w: u32, i: RvInst)
    requires Denotes(w, i)
    ensures Decode(w) == Instruction(i)
  {
    hide Decode, Encode, Canonical, Ordered, ImmediateForm, EncodeImmediate, Funct3, FencedBy;
    match i.op
    case Amo(_, wide) => OrderedDecodes(w, i, wide);
    case Lr(wide) => OrderedDecodes(w, i, wide);
    case Sc(wide) => OrderedDecodes(w, i, wide);
    case Fence => FencedDecodes(w);
    case Ecall => EcallDecodes(w);
    case OpImm(f) => ImmediateDecodes(f, i);
    case _ => DecodeEncode(i);
  }

  /** The decoder, exactly: a word decodes to an instruction if and only if it is one of its encodings. */
  lemma DecodesExactly(w: u32, i: RvInst)
    ensures Decode(w) == Instruction(i) <==> Denotes(w, i)
  {
    if Decode(w) == Instruction(i) {
      DecodedDenotes(w, i);
    }
    if Denotes(w, i) {
      DenotedDecodes(w, i);
    }
  }

  /** What is neither decoded nor refused: the accesses to control and status registers. */
  lemma CsrExactly(w: u32)
    ensures Decode(w).CsrAccess? <==> w % 0x80 == 115 && Funct3(w) != 0 && Funct3(w) != 4
  {
    hide GetInst, Rd, Rs1, Rs2, Funct7, Funct3, Signext, LoadTree, FenceTree,
      OpImmTree, OpImm32Tree, StoreTree, AmoTree, OpTree, Op32Tree, BranchTree, JalrTree, SystemTree;
  }
}
