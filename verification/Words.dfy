/** Machine words as bounded integers, with the casts, shifts and bitwise operations of the source. */
module Words {
  const BITS: nat := 64

  type u8 = x: int | 0 <= x < 0x100
  type u32 = x: int | 0 <= x < 0x1_0000_0000
  type u64 = x: int | 0 <= x < 0x1_0000_0000_0000_0000
  type i32 = x: int | -0x8000_0000 <= x < 0x8000_0000
  type i64 = x: int | -0x8000_0000_0000_0000 <= x < 0x8000_0000_0000_0000

  const M64: u64 := 0xFFFF_FFFF_FFFF_FFFF

  /** Truncation to 64 bits: `as u64` of a wider or negative integer, and wrapping arithmetic. */
  function Wrap(x: int): u64 {
    if 0 <= x < 0x1_0000_0000_0000_0000 then x else x % 0x1_0000_0000_0000_0000
  }

  /** `as i64` */
  function Signed(x: u64): int {
    if x < 0x8000_0000_0000_0000 then x else x - 0x1_0000_0000_0000_0000
  }

  /** `as u32` of a 64-bit word. */
  function Low32(x: u64): u32 {
    if x < 0x1_0000_0000 then x else x % 0x1_0000_0000
  }

  /** `as i32` of a 32-bit word. */
  function Signed32(x: u32): int {
    if x < 0x8000_0000 then x else x - 0x1_0000_0000
  }

  function Pow2(n: nat): (r: nat)
    ensures r > 0
  {
    if n == 0 then 1 else 2 * Pow2(n - 1)
  }

  /** Division rounding toward zero, as Rust's `/` on signed integers. */
  function TruncDiv(x: int, y: int): int
    requires y != 0
  {
    var q := Abs(x) / Abs(y);
    if (x < 0) == (y < 0) then q else -q
  }

  /** The remainder that goes with TruncDiv: it has the sign of the dividend. */
  function TruncRem(x: int, y: int): int
    requires y != 0
  {
    var r := Abs(x) % Abs(y);
    if x < 0 then -r else r
  }

  function Abs(x: int): nat {
    if x < 0 then -x else x
  }

  // ---- bitwise operations ----

  datatype Gate = And | Or | Xor

  function Bit(g: Gate, x: int, y: int): (r: int)
    ensures 0 <= r <= 1
  {
    var p, q := x % 2 == 1, y % 2 == 1;
    var b := match g case And => p && q case Or => p || q case Xor => p != q;
    if b then 1 else 0
  }

  /** The low n bits of the bitwise combination of x and y. */
  function BitOp(g: Gate, n: nat, x: nat, y: nat): (r: nat)
    ensures r < Pow2(n)
  {
    if n == 0 then 0 else 2 * BitOp(g, n - 1, x / 2, y / 2) + Bit(g, x, y)
  }

  /** What a gate does to single bits, as arithmetic. */
  function OfBits(g: Gate, p: nat, q: nat): int {
    match g
    case And => p * q
    case Or => p + q - p * q
    case Xor => (p + q) % 2
  }

  /** Bit k of a bitwise combination depends on bit k of the operands alone. */
  lemma {:induction false} BitAt(g: Gate, n: nat, x: nat, y: nat, k: nat)
    requires k < n
    ensures BitOp(g, n, x, y) / Pow2(k) % 2 == OfBits(g, x / Pow2(k) % 2, y / Pow2(k) % 2)
    decreases n
  {
    var rest := BitOp(g, n - 1, x / 2, y / 2);
    assert BitOp(g, n, x, y) == 2 * rest + Bit(g, x, y);
    if k == 0 {
      assert Pow2(0) == 1;
    } else {
      BitAt(g, n - 1, x / 2, y / 2, k - 1);
      HalfBits(BitOp(g, n, x, y), k);
      HalfBits(x, k);
      HalfBits(y, k);
      assert BitOp(g, n, x, y) / 2 == rest;
    }
  }

  lemma HalfBits(x: nat, k: nat)
    requires k > 0
    ensures x / Pow2(k) == x / 2 / Pow2(k - 1)
  {
    var p := Pow2(k - 1);
    hide Pow2;
    assert Pow2(k) == 2 * p by { PowNext(k); }
    var h, d := x / 2, x % 2;
    var q, r := h / p, h % p;
    assert h == p * q + r;
    assert x == (2 * p) * q + (2 * r + d);
    ModUnique(x, 2 * p, q, 2 * r + d);
  }

  lemma PowNext(k: nat)
    requires k > 0
    ensures Pow2(k) == 2 * Pow2(k - 1)
  {
  }

  /** The two's-complement value of a word: in range, and the same modulo the size of the word. */
  lemma SignedValue(x: u64)
    ensures -0x8000_0000_0000_0000 <= Signed(x) < 0x8000_0000_0000_0000
    ensures (Signed(x) - x) % 0x1_0000_0000_0000_0000 == 0
  {
  }

  lemma Signed32Value(x: u32)
    ensures -0x8000_0000 <= Signed32(x) < 0x8000_0000 && (Signed32(x) - x) % 0x1_0000_0000 == 0
  {
  }

  /** Division that rounds toward zero: the remainder is smaller than the divisor and has the sign of
      the dividend. */
  lemma TruncDivides(x: int, y: int)
    requires y != 0
    ensures x == y * TruncDiv(x, y) + TruncRem(x, y)
    ensures Abs(TruncRem(x, y)) < Abs(y)
    ensures x >= 0 ==> TruncRem(x, y) >= 0
    ensures x <= 0 ==> TruncRem(x, y) <= 0
  {
    var q, r := Abs(x) / Abs(y), Abs(x) % Abs(y);
    assert Abs(x) == Abs(y) * q + r && 0 <= r < Abs(y);
    NegatedProduct(y, q);
  }

  lemma NegatedProduct(y: int, q: int)
    ensures (-y) * q == -(y * q) && y * (-q) == -(y * q) && (-y) * (-q) == y * q
  {
  }

  lemma Pow2Values()
    ensures Pow2(8) == 0x100 && Pow2(16) == 0x1_0000
    ensures Pow2(31) == 0x8000_0000 && Pow2(32) == 0x1_0000_0000 && Pow2(63) == 0x8000_0000_0000_0000 && Pow2(64) == 0x1_0000_0000_0000_0000
  {
    Pow2Add(8, 8);
    Pow2Add(16, 16);
    Pow2Add(31, 1);
    Pow2Add(32, 32);
    Pow2Add(63, 1);
    assert Pow2(8) == 256;
  }

  lemma {:induction false} Pow2Add(m: nat, n: nat)
    ensures Pow2(m + n) == Pow2(m) * Pow2(n)
  {
    if m > 0 {
      Pow2Add(m - 1, n);
    }
  }

  function BitAnd(x: u64, y: u64): u64 {
    Pow2Values();
    BitOp(And, BITS, x, y)
  }

  function BitOr(x: u64, y: u64): u64 {
    Pow2Values();
    BitOp(Or, BITS, x, y)
  }

  function BitXor(x: u64, y: u64): u64 {
    Pow2Values();
    BitOp(Xor, BITS, x, y)
  }

  lemma DoubleMod(x: nat, d: nat, p: nat)
    requires d < 2 && p > 0
    ensures (2 * x + d) % (2 * p) == 2 * (x % p) + d
  {
    var q, r := x / p, x % p;
    assert x == p * q + r;
    assert 2 * x + d == (2 * p) * q + (2 * r + d);
    ModUnique(2 * x + d, 2 * p, q, 2 * r + d);
  }

  lemma ModUnique(x: int, p: int, q: int, r: int)
    requires p > 0 && 0 <= r < p && x == p * q + r
    ensures x % p == r && x / p == q
  {
    var q', r' := x / p, x % p;
    assert x == p * q' + r';
    MulGap(p, q, q');
    MulGap(p, q', q);
  }

  lemma MulGap(p: int, q: int, q': int)
    requires p > 0
    ensures q > q' ==> p * q >= p * q' + p
  {
    if q > q' {
      assert p * (q - q' - 1) >= 0;
      assert p * (q - q' - 1) == p * q - p * q' - p;
    }
  }

  /** A bitwise operation acts on the low k bits as it would on k-bit words. */
  lemma {:induction false} BitOpLow(g: Gate, n: nat, k: nat, x: nat, y: nat)
    requires k <= n
    ensures BitOp(g, n, x, y) % Pow2(k) == BitOp(g, k, x, y)
    ensures BitOp(g, k, x % Pow2(k), y % Pow2(k)) == BitOp(g, k, x, y)
    decreases k
  {
    if k > 0 {
      BitOpLow(g, n - 1, k - 1, x / 2, y / 2);
      DoubleMod(BitOp(g, n - 1, x / 2, y / 2), Bit(g, x, y), Pow2(k - 1));
      DoubleMod(x / 2, x % 2, Pow2(k - 1));
      DoubleMod(y / 2, y % 2, Pow2(k - 1));
      assert (x % Pow2(k)) / 2 == (x / 2) % Pow2(k - 1);
      assert (y % Pow2(k)) / 2 == (y / 2) % Pow2(k - 1);
      assert Bit(g, x % Pow2(k), y % Pow2(k)) == Bit(g, x, y);
    }
  }

  /** 0 is neutral for Or and Xor. */
  lemma {:induction false} BitOpZero(g: Gate, n: nat, y: nat)
    requires !g.And? && y < Pow2(n)
    ensures BitOp(g, n, 0, y) == y
  {
    if n > 0 {
      BitOpZero(g, n - 1, y / 2);
    }
  }

  /** Words with disjoint bits combine by addition. */
  lemma {:induction false} OrDisjoint(n: nat, k: nat, x: nat, y: nat)
    requires k <= n && x < Pow2(k) && y < Pow2(n - k)
    ensures BitOp(Or, n, x, y * Pow2(k)) == x + y * Pow2(k)
    decreases n
  {
    if k == 0 {
      BitOpZero(Or, n, y);
    } else {
      assert y * Pow2(k) == 2 * (y * Pow2(k - 1));
      OrDisjoint(n - 1, k - 1, x / 2, y);
      assert y * Pow2(k) / 2 == y * Pow2(k - 1);
    }
  }

  /** Masking with 1...100 clears the two low bits. */
  lemma AndMask(x: u64)
    ensures BitAnd(0xFFFF_FFFF_FFFF_FFFC, x) == x - x % 4
  {
    Pow2Values();
    Pow2Add(62, 2);
    assert Pow2(2) == 4;
    AndMaskBits(BITS, x);
  }

  lemma AndMaskBits(n: nat, y: nat)
    requires n >= 2 && y < Pow2(n)
    ensures BitOp(And, n, 4 * (Pow2(n - 2) - 1), y) == y - y % 4
  {
    assert Pow2(n) == 4 * Pow2(n - 2);
    hide BitOp, Pow2;
    Quarter(y);
    var ones, half, quarter := Pow2(n - 2) - 1, y / 2, y / 4;
    AndEven(n, 2 * ones, y);
    AndEven(n - 1, ones, half);
    AndOnes(n - 2, quarter);
  }

  lemma Quarter(y: nat)
    ensures y / 2 / 2 == y / 4 && y - y % 4 == 4 * (y / 4)
  {
  }

  lemma AndEven(n: nat, half: nat, y: nat)
    requires n > 0
    ensures BitOp(And, n, 2 * half, y) == 2 * BitOp(And, n - 1, half, y / 2)
  {
    assert 2 * half / 2 == half && (2 * half) % 2 == 0;
  }

  lemma {:induction false} AndOnes(n: nat, y: nat)
    requires y < Pow2(n)
    ensures BitOp(And, n, Pow2(n) - 1, y) == y
  {
    if n > 0 {
      AndOnes(n - 1, y / 2);
      assert (Pow2(n) - 1) / 2 == Pow2(n - 1) - 1;
    }
  }
}
