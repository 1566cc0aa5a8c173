/** The Zisk operations compute what the RISC-V ISA prescribes. */
module RiscvOps {
  import opened Words
  import opened MemoryModel
  import opened MemoryLemmas
  import Isa = Riscv
  import Z = ZiskInst
  import opened ZiskOps

  /** The Zisk operation that `convert` chooses for a computational instruction. */
  function ZiskOp(f: Isa.AluOp): Z.Op {
    match f
    case ADD => Z.Add case SUB => Z.Sub
    case SLL => Z.Sll case SRL => Z.Srl case SRA => Z.Sra
    case SLT => Z.Lt case SLTU => Z.Ltu
    case XOR => Z.OpXor case OR => Z.OpOr case AND => Z.OpAnd
    case ADDW => Z.AddW case SUBW => Z.SubW
    case SLLW => Z.SllW case SRLW => Z.SrlW case SRAW => Z.SraW
    case MUL => Z.Mul case MULH => Z.Mulh case MULHSU => Z.Mulsuh case MULHU => Z.Muluh
    case DIV => Z.Div case DIVU => Z.Divu case REM => Z.Rem case REMU => Z.Remu
    case MULW => Z.MulW case DIVW => Z.DivW case DIVUW => Z.DivuW case REMW => Z.RemW case REMUW => Z.RemuW
  }

  /** The one case the code gets wrong: the quotient 2^31 is returned without sign extension. */
  predicate DivwOverflow(f: Isa.AluOp, x: u64, y: u64) {
    f.DIVW? && I32(x) == -0x8000_0000 && I32(y) == -1
  }

  // ---- residues ----

  lemma WrapIsMod(x: int)
    ensures Wrap(x) == Isa.Mod64(x)
  {
  }

  lemma LowIsMod(x: u64)
    ensures Low32(x) == Isa.Mod32(x) && I32(x) == Signed32(Isa.Mod32(x))
  {
  }

  lemma FromI32IsSext(x: int)
    ensures FromI32(x) == Isa.Sext32(Isa.Mod32(x))
  {
  }

  lemma SignedIs(x: u64)
    ensures Signed(x) == Isa.Int64(x)
  {
  }

  lemma Signed32Is(x: Words.u32)
    ensures Signed32(x) == Isa.Int32(x)
  {
  }

  /** The readings of the low half. */
  lemma LowSigned(x: u64)
    ensures Low32(x) == Isa.Mod32(x) && I32(x) == Isa.Int32(Isa.Mod32(x))
    ensures -0x8000_0000 <= I32(x) < 0x8000_0000
  {
    LowIsMod(x);
    Signed32Is(Isa.Mod32(x));
  }

  lemma TruncIs(x: int, y: int)
    requires y != 0
    ensures TruncDiv(x, y) == Isa.Quotient(x, y) && TruncRem(x, y) == x - y * Isa.Quotient(x, y)
  {
    QuotientIs(x, y);
    TruncDivides(x, y);
    hide TruncDiv, TruncRem, Isa.Quotient;
  }

  lemma QuotientIs(x: int, y: int)
    requires y != 0
    ensures TruncDiv(x, y) == Isa.Quotient(x, y)
  {
  }

  lemma {:induction false} AndIs(n: nat, x: nat, y: nat)
    ensures BitOp(And, n, x, y) == Isa.AndBits(n, x, y)
  {
    if n > 0 {
      AndIs(n - 1, x / 2, y / 2);
      AndBit(x, y);
      hide Bit;
    }
  }

  lemma {:induction false} OrIs(n: nat, x: nat, y: nat)
    ensures BitOp(Or, n, x, y) == Isa.OrBits(n, x, y)
  {
    if n > 0 {
      OrIs(n - 1, x / 2, y / 2);
      OrBit(x, y);
      hide Bit;
    }
  }

  lemma {:induction false} XorIs(n: nat, x: nat, y: nat)
    ensures BitOp(Xor, n, x, y) == Isa.XorBits(n, x, y)
  {
    if n > 0 {
      XorIs(n - 1, x / 2, y / 2);
      XorBit(x, y);
      hide Bit;
    }
  }

  lemma AndBit(x: nat, y: nat)
    ensures Bit(And, x, y) == (x % 2) * (y % 2)
  {
  }

  lemma OrBit(x: nat, y: nat)
    ensures Bit(Or, x, y) == if x % 2 + y % 2 == 0 then 0 else 1
  {
  }

  lemma XorBit(x: nat, y: nat)
    ensures Bit(Xor, x, y) == (x + y) % 2
  {
  }

  lemma AndWord(x: u64, y: u64)
    ensures BitAnd(x, y) == Isa.Mod64(Isa.AndBits(64, x, y))
  {
    AndIs(BITS, x, y);
    hide BitOp, Isa.AndBits;
    Mod64Small(BitAnd(x, y));
  }

  lemma OrWord(x: u64, y: u64)
    ensures BitOr(x, y) == Isa.Mod64(Isa.OrBits(64, x, y))
  {
    OrIs(BITS, x, y);
    hide BitOp, Isa.OrBits;
    Mod64Small(BitOr(x, y));
  }

  lemma XorWord(x: u64, y: u64)
    ensures BitXor(x, y) == Isa.Mod64(Isa.XorBits(64, x, y))
  {
    XorIs(BITS, x, y);
    hide BitOp, Isa.XorBits;
    Mod64Small(BitXor(x, y));
  }

  lemma Mod64Small(x: int)
    requires 0 <= x < 0x1_0000_0000_0000_0000
    ensures Isa.Mod64(x) == x
  {
  }

  lemma ModShift(x: int, m: int, k: int)
    requires m > 0
    ensures (x + m * k) % m == x % m
  {
    var q, r := x / m, x % m;
    assert x == m * q + r;
    assert m * (q + k) == m * q + m * k;
    ModUnique(x + m * k, m, q + k, r);
  }

  lemma CongruentMod(x: int, y: int, m: int, k: int)
    requires m > 0 && x == y + m * k
    ensures x % m == y % m
  {
    ModShift(y, m, k);
  }

  lemma MulCongruent(x: int, y: int, x': int, y': int, m: int, k: int, l: int)
    requires m > 0 && x == x' + m * k && y == y' + m * l
    ensures (x * y) % m == (x' * y') % m
  {
    var j := x' * l + k * y' + m * (k * l);
    assert (m * k) * (m * l) == m * (m * (k * l));
    assert x' * (m * l) == m * (x' * l) && (m * k) * y' == m * (k * y');
    assert x * y == x' * y' + x' * (m * l) + (m * k) * y' + (m * k) * (m * l);
    assert m * j == m * (x' * l) + m * (k * y') + m * (m * (k * l));
    ModShift(x' * y', m, j);
  }

  /** The signed and unsigned readings of a word differ by a multiple of 2^64 or 2^32. */
  lemma SignedCongruent(x: u64) returns (k: int)
    ensures x == Signed(x) + 0x1_0000_0000_0000_0000 * k
  {
    k := if x < 0x8000_0000_0000_0000 then 0 else 1;
  }

  lemma I32Congruent(x: u64) returns (k: int)
    ensures x == I32(x) + 0x1_0000_0000 * k
  {
    k := x / 0x1_0000_0000 + (if Low32(x) < 0x8000_0000 then 0 else 1);
  }

  lemma Low32Congruent(x: u64) returns (k: int)
    ensures x == Low32(x) + 0x1_0000_0000 * k
  {
    k := x / 0x1_0000_0000;
  }

  lemma ShiftAmount(y: u64)
    ensures y % 64 % 32 == y % 32
  {
  }

  lemma MulSign(a: int, b: int)
    requires a >= 0
    ensures b >= 0 ==> a * b >= 0
    ensures b <= 0 ==> a * b <= 0
  {
  }

  /** A quotient is between the dividend and 0, or -1. */
  lemma QuotientBounds(x: int, p: int, q: int, r: int)
    requires p > 0 && 0 <= r < p && x == p * q + r
    ensures if x >= 0 then 0 <= q <= x else x <= q <= -1
  {
    assert p * q == (p - 1) * q + q;
    assert (p - 1) * (q + 1) == (p - 1) * q + p - 1;
    MulSign(p - 1, q);
    MulSign(p - 1, q + 1);
    MulGap(p, 0, q);
  }

  /** Floor division brings a number closer to zero, or to -1. */
  lemma FloorSmaller(x: int, p: nat)
    requires p > 0
    ensures if x >= 0 then 0 <= x / p <= x else x <= x / p <= -1
  {
    QuotientBounds(x, p, x / p, x % p);
  }

  // ---- operation by operation ----

  lemma AddSub(x: u64, y: u64)
    ensures Alu(Z.Add, x, y).0 == Isa.Result(Isa.ADD, x, y)
    ensures Alu(Z.Sub, x, y).0 == Isa.Result(Isa.SUB, x, y)
    ensures Alu(Z.AddW, x, y).0 == Isa.Result(Isa.ADDW, x, y)
    ensures Alu(Z.SubW, x, y).0 == Isa.Result(Isa.SUBW, x, y)
  {
    hide FromI32, Isa.Sext32;
    WrapIsMod(x + y);
    WrapIsMod(x - y);
    FromI32IsSext(I32(x) + I32(y));
    FromI32IsSext(I32(x) - I32(y));
    hide Wrap, Isa.Mod64;
    var k := I32Congruent(x);
    var l := I32Congruent(y);
    hide I32;
    CongruentMod(x + y, I32(x) + I32(y), 0x1_0000_0000, k + l);
    CongruentMod(x - y, I32(x) - I32(y), 0x1_0000_0000, k - l);
  }

  lemma Compare(x: u64, y: u64)
    ensures Alu(Z.Lt, x, y).0 == Isa.Result(Isa.SLT, x, y)
    ensures Alu(Z.Ltu, x, y).0 == Isa.Result(Isa.SLTU, x, y)
  {
    SignedIs(x);
    SignedIs(y);
    hide Signed, Isa.Int64;
  }

  /** A comparison sets c and the flag alike. */
  predicate Decides(op: Z.Op, x: u64, y: u64, holds: bool)
    requires IsAlu(op)
  {
    Alu(op, x, y) == (Isa.Bool(holds), holds)
  }

  lemma Comparisons(x: u64, y: u64)
    ensures Decides(Z.Op.Eq, x, y, x == y) && Decides(Z.Ltu, x, y, x < y) && Decides(Z.Leu, x, y, x <= y)
    ensures Decides(Z.Lt, x, y, Isa.Int64(x) < Isa.Int64(y)) && Decides(Z.Le, x, y, Isa.Int64(x) <= Isa.Int64(y))
  {
    SignedIs(x);
    SignedIs(y);
    hide Signed, Isa.Int64;
  }

  /** The word forms compare the low halves. */
  lemma ComparisonsW(x: u64, y: u64)
    ensures var (a, b) := (Isa.Mod32(x), Isa.Mod32(y));
            && Decides(Z.EqW, x, y, a == b) && Decides(Z.LtuW, x, y, a < b) && Decides(Z.LeuW, x, y, a <= b)
            && Decides(Z.LtW, x, y, Isa.Int32(a) < Isa.Int32(b)) && Decides(Z.LeW, x, y, Isa.Int32(a) <= Isa.Int32(b))
  {
    LowSigned(x);
    LowSigned(y);
    Int32Injective(Isa.Mod32(x), Isa.Mod32(y));
    hide I32, Low32, Isa.Int32;
  }

  lemma Int32Injective(a: Words.u32, b: Words.u32)
    ensures Isa.Int32(a) == Isa.Int32(b) <==> a == b
  {
  }

  lemma Shifts(x: u64, y: u64)
    ensures Alu(Z.Sll, x, y).0 == Isa.Result(Isa.SLL, x, y)
    ensures Alu(Z.Srl, x, y).0 == Isa.Result(Isa.SRL, x, y)
    ensures Alu(Z.Sra, x, y).0 == Isa.Result(Isa.SRA, x, y)
  {
    hide Pow2;
    SignedIs(x);
    hide Signed, Isa.Int64;
    var p := Pow2(y % 64);
    WrapIsMod(x * p);
    WrapIsMod(x / p);
    WrapIsMod(Signed(x) / p);
    hide Wrap, Isa.Mod64;
  }

  lemma ShiftsW(x: u64, y: u64)
    ensures Alu(Z.SllW, x, y).0 == Isa.Result(Isa.SLLW, x, y)
    ensures Alu(Z.SrlW, x, y).0 == Isa.Result(Isa.SRLW, x, y)
    ensures Alu(Z.SraW, x, y).0 == Isa.Result(Isa.SRAW, x, y)
  {
    hide Pow2, FromI32, Isa.Sext32;
    ShiftAmount(y);
    var p := Pow2(y % 32);
    LowSigned(x);
    hide Isa.Int32;
    var k := Low32Congruent(x);
    FromI32IsSext(Low32(x) * p);
    FromI32IsSext(Low32(x) / p);
    FromI32IsSext(I32(x) / p);
    hide I32, Low32;
    ScaledCongruent(x, Low32(x), p, 0x1_0000_0000, k);
  }

  lemma ScaledCongruent(x: int, y: int, p: int, m: int, k: int)
    requires m > 0 && x == y + m * k
    ensures (x * p) % m == (y * p) % m
  {
    MulCongruent(x, p, y, p, m, k, 0);
  }

  lemma Multiply(x: u64, y: u64)
    ensures Alu(Z.Mul, x, y).0 == Isa.Result(Isa.MUL, x, y)
    ensures Alu(Z.MulW, x, y).0 == Isa.Result(Isa.MULW, x, y)
  {
    hide FromI32, Isa.Sext32;
    WrapIsMod(Signed(x) * Signed(y));
    hide Wrap;
    FromI32IsSext(I32(x) * I32(y));
    var k := SignedCongruent(x);
    var l := SignedCongruent(y);
    var i := I32Congruent(x);
    var j := I32Congruent(y);
    hide I32, Signed;
    MulCongruent(x, y, Signed(x), Signed(y), 0x1_0000_0000_0000_0000, k, l);
    MulCongruent(x, y, I32(x), I32(y), 0x1_0000_0000, i, j);
  }

  lemma MultiplyHigh(x: u64, y: u64)
    ensures Alu(Z.Mulh, x, y).0 == Isa.Result(Isa.MULH, x, y)
    ensures Alu(Z.Mulsuh, x, y).0 == Isa.Result(Isa.MULHSU, x, y)
    ensures Alu(Z.Muluh, x, y).0 == Isa.Result(Isa.MULHU, x, y)
  {
    SignedIs(x);
    SignedIs(y);
    hide Signed, Isa.Int64;
    HighIsMod(Signed(x) * Signed(y));
    HighIsMod(Signed(x) * y);
    HighIsMod(x * y);
    hide High64, Isa.Mod64;
  }

  lemma HighIsMod(x: int)
    ensures High64(x) == Isa.Mod64(x / 0x1_0000_0000_0000_0000)
  {
    WrapIsMod(x / 0x1_0000_0000_0000_0000);
    hide Wrap, Isa.Mod64;
  }

  lemma BitwiseAnd(x: u64, y: u64)
    ensures Alu(Z.OpAnd, x, y).0 == Isa.Result(Isa.AND, x, y)
  {
    AndWord(x, y);
    hide BitAnd, Isa.AndBits, Isa.Mod64;
  }

  lemma BitwiseOr(x: u64, y: u64)
    ensures Alu(Z.OpOr, x, y).0 == Isa.Result(Isa.OR, x, y)
  {
    OrWord(x, y);
    hide BitOr, Isa.OrBits, Isa.Mod64;
  }

  lemma BitwiseXor(x: u64, y: u64)
    ensures Alu(Z.OpXor, x, y).0 == Isa.Result(Isa.XOR, x, y)
  {
    XorWord(x, y);
    hide BitXor, Isa.XorBits, Isa.Mod64;
  }

  lemma DivideUnsigned(x: u64, y: u64)
    ensures Alu(Z.Divu, x, y).0 == Isa.Result(Isa.DIVU, x, y)
    ensures Alu(Z.Remu, x, y).0 == Isa.Result(Isa.REMU, x, y)
  {
    if y != 0 {
      WrapIsMod(x / y);
      WrapIsMod(x % y);
      hide Wrap, Isa.Mod64;
    }
  }

  lemma DivideSigned(x: u64, y: u64)
    ensures Alu(Z.Div, x, y).0 == Isa.Result(Isa.DIV, x, y)
    ensures Alu(Z.Rem, x, y).0 == Isa.Result(Isa.REM, x, y)
  {
    SignedZero(y);
    SignedBack(x);
    SignedIs(x);
    SignedIs(y);
    hide Signed, Isa.Int64;
    if y != 0 {
      var p, q := Signed(x), Signed(y);
      TruncOverflow(p, q);
      TruncIs(p, q);
      hide TruncDiv, TruncRem, Isa.Quotient;
      WrapIsMod(TruncDiv(p, q));
      WrapIsMod(TruncRem(p, q));
    }
  }

  lemma SignedBack(x: u64)
    ensures Isa.Mod64(Signed(x)) == x
  {
  }

  lemma SignedZero(y: u64)
    ensures Signed(y) == 0 <==> y == 0
  {
  }

  /** Dividing by -1 negates, which takes the smallest number out of range. */
  lemma TruncOverflow(p: int, q: int)
    requires q != 0
    ensures q == -1 ==> TruncDiv(p, q) == -p && TruncRem(p, q) == 0
  {
  }

  /** Dividing brings a number closer to zero. */
  lemma TruncBounds(p: int, q: int)
    requires q != 0
    ensures Abs(TruncDiv(p, q)) <= Abs(p)
    ensures Abs(TruncRem(p, q)) <= Abs(p)
  {
    FloorSmaller(Abs(p), Abs(q));
    RemainderSmaller(Abs(p), Abs(q));
  }

  lemma RemainderSmaller(x: nat, p: nat)
    requires p > 0
    ensures 0 <= x % p <= x
  {
    FloorSmaller(x, p);
    MulSign(p, x / p);
    assert x == p * (x / p) + x % p;
  }

  lemma DivideUnsignedW(x: u64, y: u64)
    ensures Alu(Z.DivuW, x, y).0 == Isa.Result(Isa.DIVUW, x, y)
  {
    LowIsMod(x);
    LowIsMod(y);
    var a, b := Low32(x), Low32(y);
    hide Low32, FromI32, I32;
    if b == 0 {
      AllOnes();
    } else {
      hide Isa.Sext32;
      FromI32IsSext(a / b);
    }
  }

  lemma AllOnes()
    ensures Isa.Sext32(Isa.Mod32(0xFFFF_FFFF)) == M64 == Isa.Sext32(Isa.Mod32(-1))
  {
  }

  lemma RemainderUnsignedW(x: u64, y: u64)
    ensures Alu(Z.RemuW, x, y).0 == Isa.Result(Isa.REMUW, x, y)
  {
    LowIsMod(x);
    LowIsMod(y);
    var a, b := Low32(x), Low32(y);
    hide Low32, FromI32, I32, Isa.Sext32;
    FromI32IsSext(a);
    if b != 0 {
      FromI32IsSext(a % b);
    }
  }

  lemma RemainderW(x: u64, y: u64)
    ensures Alu(Z.RemW, x, y).0 == Isa.Result(Isa.REMW, x, y)
  {
    LowSigned(x);
    LowSigned(y);
    var a, b := I32(x), I32(y);
    FromI32IsSext(a);
    hide Low32, I32, Isa.Int32;
    if b != 0 {
      TruncOverflow(a, b);
      TruncBounds(a, b);
      RemainderRange(a, b);
      hide TruncRem, FromI32, Isa.RemS;
      SextOfSmall(TruncRem(a, b));
    }
  }

  lemma RemainderRange(p: int, q: int)
    requires q != 0 && -0x8000_0000 <= p < 0x8000_0000
    ensures -0x8000_0000 <= TruncRem(p, q) < 0x8000_0000
    ensures Isa.RemS(p, q, -0x8000_0000) == TruncRem(p, q)
  {
    TruncBounds(p, q);
    TruncOverflow(p, q);
    TruncIs(p, q);
    TruncDivides(p, q);
    hide TruncDiv, TruncRem, Isa.Quotient;
  }

  /** Sign-extending a 32-bit number to 64 bits keeps its value. */
  lemma SextOfSmall(x: int)
    requires -0x8000_0000 <= x < 0x8000_0000
    ensures Wrap(x) == Isa.Sext32(Isa.Mod32(x))
  {
  }

  /** divw agrees with section 7.2 except on overflow, where it does not. */
  lemma DivwExactly(x: u64, y: u64)
    ensures Alu(Z.DivW, x, y).0 == Isa.Result(Isa.DIVW, x, y) <==> !DivwOverflow(Isa.DIVW, x, y)
  {
    LowSigned(x);
    LowSigned(y);
    var a, b := I32(x), I32(y);
    hide Low32, I32, Isa.Int32;
    if b != 0 {
      TruncIs(a, b);
    }
    hide Isa.Quotient;
    if b == 0 {
      AllOnes();
    } else if a == -0x8000_0000 && b == -1 {
      TruncOverflow(a, b);
      assert Isa.Sext32(Isa.Mod32(-0x8000_0000)) == 0xFFFF_FFFF_8000_0000;
    } else {
      QuotientRange(a, b);
      hide TruncDiv;
      SextOfSmall(TruncDiv(a, b));
    }
  }

  lemma QuotientRange(p: int, q: int)
    requires q != 0 && -0x8000_0000 <= p < 0x8000_0000 && !(p == -0x8000_0000 && q == -1)
    ensures -0x8000_0000 <= TruncDiv(p, q) < 0x8000_0000
  {
    TruncBounds(p, q);
    if p == -0x8000_0000 && q < -1 {
      HalfQuotient(0x8000_0000, -q);
    }
  }

  lemma HalfQuotient(x: nat, p: nat)
    requires p >= 2 && x > 0
    ensures x / p < x
  {
    QuotientBounds(x, p, x / p, x % p);
    assert p * (x / p) == 2 * (x / p) + (p - 2) * (x / p);
    MulSign(p - 2, x / p);
  }

  /** Every operation that `convert` emits computes what the ISA prescribes, for all operands, with
      the one exception. */
  lemma OperationCorrect(f: Isa.AluOp, x: u64, y: u64)
    ensures Alu(ZiskOp(f), x, y).0 == Isa.Result(f, x, y) <==> !DivwOverflow(f, x, y)
  {
    hide Alu, Isa.Result, I32;
    match f
    case ADD => AddSub(x, y);
    case SUB => AddSub(x, y);
    case ADDW => AddSub(x, y);
    case SUBW => AddSub(x, y);
    case SLT => Compare(x, y);
    case SLTU => Compare(x, y);
    case SLL => Shifts(x, y);
    case SRL => Shifts(x, y);
    case SRA => Shifts(x, y);
    case SLLW => ShiftsW(x, y);
    case SRLW => ShiftsW(x, y);
    case SRAW => ShiftsW(x, y);
    case AND => BitwiseAnd(x, y);
    case OR => BitwiseOr(x, y);
    case XOR => BitwiseXor(x, y);
    case MUL => Multiply(x, y);
    case MULW => Multiply(x, y);
    case MULH => MultiplyHigh(x, y);
    case MULHSU => MultiplyHigh(x, y);
    case MULHU => MultiplyHigh(x, y);
    case DIV => DivideSigned(x, y);
    case REM => DivideSigned(x, y);
    case DIVU => DivideUnsigned(x, y);
    case REMU => DivideUnsigned(x, y);
    case DIVW => DivwExactly(x, y);
    case REMW => RemainderW(x, y);
    case DIVUW => DivideUnsignedW(x, y);
    case REMUW => RemainderUnsignedW(x, y);
  }

  // ---- loads and atomic operations ----

  /** The operation of a load, applied to the zero-extended value found in memory. */
  function LoadZisk(load: Isa.LoadOp): Z.Op {
    match load
    case LB => Z.SignExtendB
    case LH => Z.SignExtendH
    case LW => Z.SignExtendW
    case _ => Z.CopyB
  }

  /** The widths that convert passes on. */
  function ZiskLoadWidth(load: Isa.LoadOp): nat {
    if load.LD? then 8 else if load.LW? || load.LWU? then 4 else if load.LH? || load.LHU? then 2 else 1
  }

  function ZiskStoreWidth(store: Isa.StoreOp): nat {
    if store.SD? then 8 else if store.SW? then 4 else if store.SH? then 2 else 1
  }

  function ZiskAtomicWidth(wide: bool): nat {
    if wide then 8 else 4
  }

  lemma WidthsAgree()
    ensures forall load: Isa.LoadOp :: ZiskLoadWidth(load) == load.Width()
    ensures forall store: Isa.StoreOp :: ZiskStoreWidth(store) == store.Width()
    ensures forall wide: bool :: ZiskAtomicWidth(wide) == Isa.Word(wide)
  {
  }

  lemma LoadCorrect(load: Isa.LoadOp, a: u64, v: u64)
    requires v < Pow256(load.Width())
    ensures Alu(LoadZisk(load), a, v).0 == Isa.Extended(load, v)
  {
    Pow256Values();
    hide Pow256;
    LowSmall(v);
  }

  lemma LowSmall(v: u64)
    ensures v < 0x1_0000_0000 ==> Low32(v) == v
    ensures v < 0x1_0000 ==> v % 0x1_0000 == v
    ensures v < 0x100 ==> v % 0x100 == v
  {
  }

  /** The combining operation of an atomic instruction other than swap. */
  function AmoZisk(f: Isa.AmoOp, wide: bool): Z.Op
  {
    match f
    case SWAP => Z.CopyB
    case AADD => if wide then Z.Add else Z.AddW
    case AXOR => Z.OpXor
    case AAND => Z.OpAnd
    case AOR => Z.OpOr
    case AMIN => if wide then Z.Min else Z.MinW
    case AMAX => if wide then Z.Max else Z.MaxW
    case AMINU => if wide then Z.Minu else Z.MinuW
    case AMAXU => if wide then Z.Maxu else Z.MaxuW
  }

  lemma SextLow(v: Words.u32)
    ensures Low32(Isa.Sext32(v)) == v && I32(Isa.Sext32(v)) == Signed32(v)
    ensures Isa.Mod32(Isa.Sext32(v)) == v
  {
  }

  lemma FromI32Low(x: u64)
    ensures Low32(FromI32(I32(x))) == Low32(x) == Isa.Mod32(x)
  {
  }

  lemma AmoWide(f: Isa.AmoOp, v: u64, y: u64)
    ensures Alu(AmoZisk(f, true), v, y).0 == Isa.AmoResult64(f, v, y)
  {
    AndWord(v, y);
    OrWord(v, y);
    XorWord(v, y);
    SignedIs(v);
    SignedIs(y);
    hide BitAnd, BitOr, BitXor, Isa.AndBits, Isa.OrBits, Isa.XorBits, Isa.Int64;
    WrapIsMod(v + y);
    SignedInjective(v, y);
    hide Wrap, Isa.Mod64, Signed;
  }

  lemma SignedInjective(x: u64, y: u64)
    ensures Signed(x) == Signed(y) <==> x == y
  {
  }

  lemma AmoArithmetic(f: Isa.AmoOp, v: Words.u32, y: u64)
    requires f.AADD? || f.AMIN? || f.AMAX? || f.AMINU? || f.AMAXU? || f.SWAP?
    ensures Low32(Alu(AmoZisk(f, false), Isa.Sext32(v), y).0) == Isa.AmoResult32(f, v, Isa.Mod32(y))
  {
    var c := Isa.Sext32(v);
    SextLow(v);
    LowIsMod(y);
    FromI32Low(c);
    FromI32Low(y);
    if f.AADD? {
      AddLow(v, y);
    }
    hide FromI32, I32, Low32, Isa.Sext32;
  }

  lemma AddLow(v: Words.u32, y: u64)
    ensures Low32(FromI32(I32(Isa.Sext32(v)) + I32(y))) == Isa.Mod32(v + Isa.Mod32(y))
  {
    SextLow(v);
    FromI32IsSext(Signed32(v) + I32(y));
    SextLow(Isa.Mod32(Signed32(v) + I32(y)));
    hide FromI32, Isa.Sext32;
    LowIsMod(y);
    hide Low32, I32;
  }

  lemma AmoBitwise(f: Isa.AmoOp, v: Words.u32, y: u64)
    requires f.AXOR? || f.AAND? || f.AOR?
    ensures Low32(Alu(AmoZisk(f, false), Isa.Sext32(v), y).0) == Isa.AmoResult32(f, v, Isa.Mod32(y))
  {
    var c := Isa.Sext32(v);
    SextLow(v);
    hide BitOp, Isa.Sext32, Low32;
    var r := Alu(AmoZisk(f, false), c, y).0;
    LowIsMod(r);
    if f.AXOR? {
      LowBits(Xor, c, y);
      XorIs(32, Isa.Mod32(c), Isa.Mod32(y));
    } else if f.AAND? {
      LowBits(And, c, y);
      AndIs(32, Isa.Mod32(c), Isa.Mod32(y));
    } else {
      LowBits(Or, c, y);
      OrIs(32, Isa.Mod32(c), Isa.Mod32(y));
    }
  }

  lemma LowBits(g: Gate, x: u64, y: u64)
    ensures BitOp(g, BITS, x, y) % 0x1_0000_0000 == BitOp(g, 32, Isa.Mod32(x), Isa.Mod32(y))
  {
    Pow2Values();
    BitOpLow(g, BITS, 32, x, y);
  }

  lemma SameLowBytes(x: nat, y: nat, n: nat)
    requires n == 4 && x % 0x1_0000_0000 == y % 0x1_0000_0000
    ensures LowBytes(x, n) == LowBytes(y, n)
  {
    hide LowBytes;
    Pow256Values();
    LowBytesMod(x, n);
    LowBytesMod(y, n);
  }

  lemma AmoNarrow(f: Isa.AmoOp, v: Words.u32, y: u64, n: nat)
    requires n == 4
    ensures LowBytes(Alu(AmoZisk(f, false), Isa.Sext32(v), y).0, n) == LowBytes(Isa.AmoResult32(f, v, Isa.Mod32(y)), n)
  {
    hide Alu, Isa.Sext32, LowBytes;
    if f.AXOR? || f.AAND? || f.AOR? { AmoBitwise(f, v, y); } else { AmoArithmetic(f, v, y); }
    var c, r := Alu(AmoZisk(f, false), Isa.Sext32(v), y).0, Isa.AmoResult32(f, v, Isa.Mod32(y));
    AmoRange(f, v, Isa.Mod32(y));
    hide Isa.AmoResult32;
    LowIsMod(c);
    SameLowBytes(c, r, n);
  }

  lemma AmoRange(f: Isa.AmoOp, v: Words.u32, y: Words.u32)
    ensures Isa.AmoResult32(f, v, y) < 0x1_0000_0000
  {
    Pow2Values();
    XorIs(32, v, y);
    AndIs(32, v, y);
    OrIs(32, v, y);
    hide BitOp, Pow2, Isa.XorBits, Isa.AndBits, Isa.OrBits, Isa.Int32;
  }

  lemma WordBound(wide: bool, v: nat)
    requires v < Pow256(Isa.Word(wide))
    ensures v < 0x1_0000_0000_0000_0000
    ensures !wide ==> v < 0x1_0000_0000
    ensures Isa.Extended(Isa.LoadOf(wide), v) == if wide then v else Isa.Sext32(v)
  {
    Pow256Values();
    hide Pow256;
  }

  /** What an atomic operation stores agrees with the ISA on the bytes it stores. */
  lemma AmoCorrect(f: Isa.AmoOp, wide: bool, found: nat, y: u64)
    requires found < Pow256(Isa.Word(wide))
    ensures var c := Alu(AmoZisk(f, wide), Isa.Extended(Isa.LoadOf(wide), found), y).0;
            LowBytes(c, Isa.Word(wide)) == LowBytes(Isa.AmoStored(f, wide, found, y), Isa.Word(wide))
  {
    hide Alu, LowBytes, Isa.Sext32, Isa.AmoResult32, Isa.AmoResult64, AmoZisk;
    WordBound(wide, found);
    hide Isa.Extended;
    if wide {
      AmoWide(f, found, y);
    } else {
      AmoNarrow(f, found, y, Isa.Word(wide));
    }
  }
}
