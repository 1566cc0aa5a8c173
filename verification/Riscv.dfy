/**
 * What the RISC-V Unprivileged ISA (version 20191213) prescribes for a decoded RV64IMA instruction:
 * chapters 2 and 5, sections 7.1, 7.2 and 8.2 to 8.4. A hart with one address space of regions.
 */
module Riscv {
  import opened Words
  import opened Wrappers
  import opened MemoryModel

  type RegIndex = k: nat | k < 32

  datatype AluOp =
    | ADD | SUB | SLL | SLT | SLTU | XOR | SRL | SRA | OR | AND
    | ADDW | SUBW | SLLW | SRLW | SRAW
    | MUL | MULH | MULHSU | MULHU | DIV | DIVU | REM | REMU
    | MULW | DIVW | DIVUW | REMW | REMUW

  datatype Cond = BEQ | BNE | BLT | BGE | BLTU | BGEU

  datatype AmoOp = SWAP | AADD | AXOR | AAND | AOR | AMIN | AMAX | AMINU | AMAXU

  datatype LoadOp = LB | LBU | LH | LHU | LW | LWU | LD {
    function Width(): nat {
      match this
      case LB => 1 case LBU => 1
      case LH => 2 case LHU => 2
      case LW => 4 case LWU => 4
      case LD => 8
    }

    predicate Unsigned() { LBU? || LHU? || LWU? }
  }

  datatype StoreOp = SB | SH | SW | SD {
    function Width(): nat {
      match this case SB => 1 case SH => 2 case SW => 4 case SD => 8
    }
  }

  /** The instructions by format; addi is OpImm(ADD), addiw is OpImm(ADDW), and so on. Wide selects
      the doubleword form of an atomic instruction. */
  datatype Mnemonic =
    | Load(load: LoadOp)
    | Store(store: StoreOp)
    | OpReg(f: AluOp)
    | OpImm(f: AluOp)
    | Lui | Auipc | Jal | Jalr
    | Branch(cond: Cond)
    | Amo(amo: AmoOp, wide: bool)
    | Lr(wide: bool) | Sc(wide: bool)
    | Fence | FenceI | Ecall | Ebreak

  /** A decoded instruction; imm is the immediate with all shifts and sign extension applied. */
  datatype RvInst = RvInst(op: Mnemonic, rd: RegIndex, rs1: RegIndex, rs2: RegIndex, imm: i32)

  /** The register-immediate instructions that exist. */
  predicate HasImmForm(f: AluOp) {
    f.ADD? || f.SLL? || f.SLT? || f.SLTU? || f.XOR? || f.SRL? || f.SRA? || f.OR? || f.AND?
    || f.ADDW? || f.SLLW? || f.SRLW? || f.SRAW?
  }

  /** The instructions that exist; load-reserved has no immediate. */
  predicate Encodable(i: RvInst) {
    match i.op
    case OpImm(f) => HasImmForm(f)
    case Lr(_) => i.imm == 0
    case _ => true
  }

  // ---- registers and memory ----

  datatype Region = Region(start: int, end: int)

  type Registers = s: seq<u64> | |s| == 32
    witness seq(32, _ => 0)

  /** reservation is the address and width of the latest load-reserved not yet used up. */
  datatype Hart = Hart(x: Registers, pc: u64, mem: map<int, u8>, regions: set<Region>, reservation: Option<(u64, nat)>) {
    /** Register k; x0 reads as 0. */
    function X(k: RegIndex): u64 {
      if k == 0 then 0 else x[k]
    }

    /** Register rd gets v; writes to x0 are ignored. */
    function SetX(rd: RegIndex, v: u64): Hart {
      if rd == 0 then this else this.(x := x[rd := v])
    }

    /** Go on at address target. */
    function Goto(target: u64): Hart {
      this.(pc := target)
    }

    function Next(): Hart {
      Goto(Wrap(pc + 4))
    }
  }

  ghost predicate Permits(regions: set<Region>, addr: int, width: nat) {
    exists r :: r in regions && r.start <= addr && addr + width <= r.end
  }

  // ---- arithmetic ----

  function Mod32(x: int): u32 {
    x % 0x1_0000_0000
  }

  function Mod64(x: int): u64 {
    x % 0x1_0000_0000_0000_0000
  }

  /** A 32-bit result is sign-extended to 64 bits. */
  function Sext32(x: u32): u64 {
    if x < 0x8000_0000 then x else x + 0xFFFF_FFFF_0000_0000
  }

  function Bool(b: bool): u64 {
    if b then 1 else 0
  }

  /** The signed readings of a word. */
  function Int64(x: u64): int {
    (x + 0x8000_0000_0000_0000) % 0x1_0000_0000_0000_0000 - 0x8000_0000_0000_0000
  }

  function Int32(x: u32): int {
    (x + 0x8000_0000) % 0x1_0000_0000 - 0x8000_0000
  }

  /** The n-bit results of the bitwise operations, bit by bit. */
  function AndBits(n: nat, x: nat, y: nat): nat {
    if n == 0 then 0 else (x % 2) * (y % 2) + 2 * AndBits(n - 1, x / 2, y / 2)
  }

  function OrBits(n: nat, x: nat, y: nat): nat {
    if n == 0 then 0 else (if x % 2 + y % 2 == 0 then 0 else 1) + 2 * OrBits(n - 1, x / 2, y / 2)
  }

  function XorBits(n: nat, x: nat, y: nat): nat {
    if n == 0 then 0 else (x + y) % 2 + 2 * XorBits(n - 1, x / 2, y / 2)
  }

  /** The quotient rounded towards zero, by the signs of the operands. */
  function Quotient(x: int, y: int): int
    requires y != 0
  {
    if x >= 0 then if y > 0 then x / y else -(x / -y)
    else if y > 0 then -(-x / y) else -x / -y
  }

  /** Signed division as in table 7.1: by zero gives -1, and overflow gives the dividend. */
  function DivS(x: int, y: int, min: int): int {
    if y == 0 then -1 else if x == min && y == -1 then min else Quotient(x, y)
  }

  function RemS(x: int, y: int, min: int): int {
    if y == 0 then x else if x == min && y == -1 then 0 else x - y * Quotient(x, y)
  }

  function DivU(x: nat, y: nat, max: nat): nat {
    if y == 0 then max else x / y
  }

  function RemU(x: nat, y: nat): nat {
    if y == 0 then x else x % y
  }

  /** The result of a computation on two 64-bit operands. */
  function Result(f: AluOp, x: u64, y: u64): u64 {
    match f
    case ADD => Mod64(x + y)
    case SUB => Mod64(x - y)
    case SLL => Mod64(x * Pow2(y % 64))
    case SLT => Bool(Int64(x) < Int64(y))
    case SLTU => Bool(x < y)
    case XOR => Mod64(XorBits(64, x, y))
    case SRL => Mod64(x / Pow2(y % 64))
    case SRA => Mod64(Int64(x) / Pow2(y % 64))
    case OR => Mod64(OrBits(64, x, y))
    case AND => Mod64(AndBits(64, x, y))
    case ADDW => Sext32(Mod32(x + y))
    case SUBW => Sext32(Mod32(x - y))
    case SLLW => Sext32(Mod32(x * Pow2(y % 32)))
    case SRLW => Sext32(Mod32(Mod32(x) / Pow2(y % 32)))
    case SRAW => Sext32(Mod32(Int32(Mod32(x)) / Pow2(y % 32)))
    case MUL => Mod64(x * y)
    case MULH => Mod64(Int64(x) * Int64(y) / 0x1_0000_0000_0000_0000)
    case MULHSU => Mod64(Int64(x) * y / 0x1_0000_0000_0000_0000)
    case MULHU => Mod64(x * y / 0x1_0000_0000_0000_0000)
    case DIV => Mod64(DivS(Int64(x), Int64(y), -0x8000_0000_0000_0000))
    case DIVU => Mod64(DivU(x, y, 0xFFFF_FFFF_FFFF_FFFF))
    case REM => Mod64(RemS(Int64(x), Int64(y), -0x8000_0000_0000_0000))
    case REMU => Mod64(RemU(x, y))
    case MULW => Sext32(Mod32(x * y))
    case DIVW => Sext32(Mod32(DivS(Int32(Mod32(x)), Int32(Mod32(y)), -0x8000_0000)))
    case DIVUW => Sext32(Mod32(DivU(Mod32(x), Mod32(y), 0xFFFF_FFFF)))
    case REMW => Sext32(Mod32(RemS(Int32(Mod32(x)), Int32(Mod32(y)), -0x8000_0000)))
    case REMUW => Sext32(Mod32(RemU(Mod32(x), Mod32(y))))
  }

  predicate Taken(cond: Cond, x: u64, y: u64) {
    match cond
    case BEQ => x == y
    case BNE => x != y
    case BLT => Int64(x) < Int64(y)
    case BGE => Int64(x) >= Int64(y)
    case BLTU => x < y
    case BGEU => x >= y
  }

  // ---- memory accesses ----

  /** The value of a load, sign- or zero-extended. */
  function Extended(load: LoadOp, v: nat): u64 {
    match load
    case LB => Mod64(if v < 0x80 then v else v - 0x100)
    case LH => Mod64(if v < 0x8000 then v else v - 0x1_0000)
    case LW => Mod64(if v < 0x8000_0000 then v else v - 0x1_0000_0000)
    case _ => Mod64(v)
  }

  /** What an atomic operation stores: on 32-bit values in the word form. */
  function AmoResult64(f: AmoOp, old_: u64, y: u64): u64 {
    match f
    case SWAP => y
    case AADD => Mod64(old_ + y)
    case AXOR => Mod64(XorBits(64, old_, y))
    case AAND => Mod64(AndBits(64, old_, y))
    case AOR => Mod64(OrBits(64, old_, y))
    case AMIN => if Int64(old_) <= Int64(y) then old_ else y
    case AMAX => if Int64(old_) >= Int64(y) then old_ else y
    case AMINU => if old_ <= y then old_ else y
    case AMAXU => if old_ >= y then old_ else y
  }

  function AmoResult32(f: AmoOp, old_: u32, y: u32): nat {
    match f
    case SWAP => y
    case AADD => Mod32(old_ + y)
    case AXOR => XorBits(32, old_, y)
    case AAND => AndBits(32, old_, y)
    case AOR => OrBits(32, old_, y)
    case AMIN => if Int32(old_) <= Int32(y) then old_ else y
    case AMAX => if Int32(old_) >= Int32(y) then old_ else y
    case AMINU => if old_ <= y then old_ else y
    case AMAXU => if old_ >= y then old_ else y
  }

  // ---- one instruction ----

  /** How an instruction ends: at a new state, in an exception, or with a request to the execution
      environment, which chapter 2 leaves open. */
  datatype Ends = Next(hart: Hart) | AccessFault | Misaligned | Environment

  function Word(wide: bool): nat {
    if wide then 8 else 4
  }

  function JumpTo(h: Hart, target: u64): Ends {
    if target % 4 != 0 then Misaligned else Ends.Next(h.Goto(target))
  }

  /** Jump targets of jalr have their lowest bit cleared. */
  function JalrTarget(h: Hart, i: RvInst): u64 {
    var t := Wrap(h.X(i.rs1) + i.imm);
    t - t % 2
  }

  /** The address a load, store or atomic instruction accesses. */
  function DataAddr(h: Hart, i: RvInst): u64 {
    match i.op
    case Load(_) => Wrap(h.X(i.rs1) + i.imm)
    case Store(_) => Wrap(h.X(i.rs1) + i.imm)
    case _ => h.X(i.rs1)
  }

  /** How many bytes it accesses; 0 for the other instructions. */
  function DataWidth(i: RvInst): nat {
    match i.op
    case Load(load) => load.Width()
    case Store(store) => store.Width()
    case Amo(_, wide) => Word(wide)
    case Lr(wide) => Word(wide)
    case Sc(wide) => Word(wide)
    case _ => 0
  }

  function Stored(h: Hart, i: RvInst, v: nat): Hart {
    h.(mem := h.mem + LeMap(DataAddr(h, i), v, DataWidth(i)))
  }

  /** The value in memory that a load or an atomic instruction finds. */
  function Found(h: Hart, i: RvInst): nat {
    LeAt(h.mem, DataAddr(h, i), DataWidth(i))
  }

  function AmoStored(f: AmoOp, wide: bool, found: nat, y: u64): nat {
    if wide then AmoResult64(f, Mod64(found), y) else AmoResult32(f, Mod32(found), Mod32(y))
  }

  /** Atomic instructions need a naturally aligned address; plain loads and stores do not. */
  predicate NeedsAlignment(i: RvInst) {
    i.op.Amo? || i.op.Lr? || i.op.Sc?
  }

  function LoadOf(wide: bool): LoadOp {
    if wide then LD else LW
  }

  /** A data access that is allowed. */
  function Access(h: Hart, i: RvInst): Hart {
    match i.op
    case Load(load) => h.SetX(i.rd, Extended(load, Found(h, i))).Next()
    case Store(_) => Stored(h, i, h.X(i.rs2)).Next()
    case Amo(f, wide) =>
      Stored(h, i, AmoStored(f, wide, Found(h, i), h.X(i.rs2))).SetX(i.rd, Extended(LoadOf(wide), Found(h, i))).Next()
    case Lr(wide) =>
      h.SetX(i.rd, Extended(LoadOf(wide), Found(h, i))).Next().(reservation := Some((DataAddr(h, i), DataWidth(i))))
    case Sc(_) =>
      if h.reservation == Some((DataAddr(h, i), DataWidth(i))) then
        Stored(h, i, h.X(i.rs2)).SetX(i.rd, 0).Next().(reservation := None)
      else h.SetX(i.rd, 1).Next().(reservation := None)
    case _ => h
  }

  ghost function Execute(h: Hart, i: RvInst): Ends {
    if DataWidth(i) > 0 then
      if NeedsAlignment(i) && DataAddr(h, i) % DataWidth(i) != 0 then Misaligned
      else if !Permits(h.regions, DataAddr(h, i), DataWidth(i)) then AccessFault
      else Ends.Next(Access(h, i))
    else
      match i.op
      case OpReg(f) => Ends.Next(h.SetX(i.rd, Result(f, h.X(i.rs1), h.X(i.rs2))).Next())
      case OpImm(f) => Ends.Next(h.SetX(i.rd, Result(f, h.X(i.rs1), Mod64(i.imm))).Next())
      case Lui => Ends.Next(h.SetX(i.rd, Mod64(i.imm)).Next())
      case Auipc => Ends.Next(h.SetX(i.rd, Wrap(h.pc + i.imm)).Next())
      case Jal => JumpTo(h.SetX(i.rd, Wrap(h.pc + 4)), Wrap(h.pc + i.imm))
      case Jalr => JumpTo(h.SetX(i.rd, Wrap(h.pc + 4)), JalrTarget(h, i))
      case Branch(cond) =>
        if Taken(cond, h.X(i.rs1), h.X(i.rs2)) then JumpTo(h, Wrap(h.pc + i.imm)) else Ends.Next(h.Next())
      case Fence => Ends.Next(h.Next())
      case FenceI => Ends.Next(h.Next())
      case _ => Environment
  }
}
