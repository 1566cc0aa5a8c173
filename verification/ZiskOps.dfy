/** The operations that only need a and b: (c, flag) = op(a, b). */
module ZiskOps {
  import opened Words
  import opened ZiskInst

  /** `as i32` of a 64-bit word */
  function I32(x: u64): int {
    Signed32(Low32(x))
  }

  /** An i32 or u32 result, wrapped to 32 bits and then sign-extended: `as i32 as u64`. */
  function FromI32(x: int): u64 {
    var w := WrapSigned32(x);
    if w < 0 then w + 0x1_0000_0000_0000_0000 else w
  }

  function WrapSigned32(x: int): (r: int)
    ensures -0x8000_0000 <= r < 0x8000_0000
  {
    if -0x8000_0000 <= x < 0x8000_0000 then x
    else Signed32(x % 0x1_0000_0000)
  }

  /** a << k on n-bit words, given modulus 2^n */
  function Shl(a: nat, k: nat): nat {
    a * Pow2(k)
  }

  /** Floor division by 2^k: `>>`, arithmetic on negative numbers. */
  function Shr(a: int, k: nat): int {
    a / Pow2(k)
  }

  function Flagged(cond: bool): (u64, bool) {
    (if cond then 1 else 0, cond)
  }

  /** High 64 bits of a 128-bit product. */
  function High64(x: int): u64 {
    Wrap(x / 0x1_0000_0000_0000_0000)
  }

  predicate IsAlu(op: Op) {
    op.InputSize() == 0 && !op.FcallParam? && !op.Fcall? && !op.FcallGet? && !op.NoFunc?
  }

  function Alu(op: Op, a: u64, b: u64): (r: (u64, bool))
    requires IsAlu(op)
  {
    match op
    case Flag => (0, true)
    case CopyB => (b, false)
    case SignExtendB => (SignExtend(b % 0x100, 0x80, 0x100), false)
    case SignExtendH => (SignExtend(b % 0x1_0000, 0x8000, 0x1_0000), false)
    case SignExtendW => (SignExtend(Low32(b), 0x8000_0000, 0x1_0000_0000), false)
    case Add => (Wrap(a + b), false)
    case AddW => (FromI32(I32(a) + I32(b)), false)
    case Sub => (Wrap(a - b), false)
    case SubW => (FromI32(I32(a) - I32(b)), false)
    case Sll => (Wrap(Shl(a, b % 64)), false)
    case SllW => (FromI32(Shl(Low32(a), b % 64 % 32)), false)
    case Sra => (Wrap(Shr(Signed(a), b % 64)), false)
    case Srl => (Wrap(Shr(a, b % 64)), false)
    case SraW => (FromI32(Shr(I32(a), b % 64 % 32)), false)
    case SrlW => (FromI32(Shr(Low32(a), b % 64 % 32)), false)
    case Eq => Flagged(a == b)
    case EqW => Flagged(I32(a) == I32(b))
    case Ltu => Flagged(a < b)
    case Lt => Flagged(Signed(a) < Signed(b))
    case LtuW => Flagged(Low32(a) < Low32(b))
    case LtW => Flagged(I32(a) < I32(b))
    case Leu => Flagged(a <= b)
    case Le => Flagged(Signed(a) <= Signed(b))
    case LeuW => Flagged(Low32(a) <= Low32(b))
    case LeW => Flagged(I32(a) <= I32(b))
    case OpAnd => (BitAnd(a, b), false)
    case OpOr => (BitOr(a, b), false)
    case OpXor => (BitXor(a, b), false)
    case Mulu => (Wrap(a * b), false)
    case Muluh => (High64(a * b), false)
    case Mulsuh => (High64(Signed(a) * b), false)
    case Mul => (Wrap(Signed(a) * Signed(b)), false)
    case Mulh => (High64(Signed(a) * Signed(b)), false)
    case MulW => (FromI32(I32(a) * I32(b)), false)
    case Divu => if b == 0 then (M64, true) else (Wrap(a / b), false)
    case Remu => if b == 0 then (a, true) else (Wrap(a % b), false)
    case Div => if b == 0 then (M64, true) else (Wrap(TruncDiv(Signed(a), Signed(b))), false)
    case Rem => if b == 0 then (a, true) else (Wrap(TruncRem(Signed(a), Signed(b))), false)
    case DivuW => if Low32(b) == 0 then (M64, true) else (FromI32(Low32(a) / Low32(b)), false)
    case RemuW => if Low32(b) == 0 then (FromI32(Low32(a)), true) else (FromI32(Low32(a) % Low32(b)), false)
    case DivW => if I32(b) == 0 then (M64, true) else (Wrap(TruncDiv(I32(a), I32(b))), false)
    case RemW => if I32(b) == 0 then (FromI32(I32(a)), true) else (Wrap(TruncRem(I32(a), I32(b))), false)
    case Minu => (if a < b then a else b, false)
    case Min => (if Signed(a) < Signed(b) then a else b, false)
    case MinuW => (if Low32(a) < Low32(b) then FromI32(I32(a)) else FromI32(I32(b)), false)
    case MinW => (if I32(a) < I32(b) then FromI32(I32(a)) else FromI32(I32(b)), false)
    case Maxu => (if a > b then a else b, false)
    case Max => (if Signed(a) > Signed(b) then a else b, false)
    case MaxuW => (if Low32(a) > Low32(b) then FromI32(I32(a)) else FromI32(I32(b)), false)
    case MaxW => (if I32(a) > I32(b) then FromI32(I32(a)) else FromI32(I32(b)), false)
    case PubOut => (b, false)
  }

  /** The value of an n-bit two's-complement number, as a 64-bit word. */
  function SignExtend(x: nat, sign: nat, modulus: nat): u64
    requires x < modulus <= 0x1_0000_0000 && sign <= modulus
  {
    if x < sign then x else x - modulus + 0x1_0000_0000_0000_0000
  }
}
