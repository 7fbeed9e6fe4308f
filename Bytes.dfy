/** Bytes, the unbounded bitwise OR and shift the source uses on them, and the little-endian
    integer assembly shared by the frame decoder and the register page. */
module Bytes {

  /** One octet as received from the serial port. */
  type byte = x: int | 0 <= x < 256

  function Pow2(k: nat): (r: nat)
    ensures r >= 1
  {
    if k == 0 then 1 else 2 * Pow2(k - 1)
  }

  /** `x << k` on unbounded non-negative integers. */
  function Shl(x: nat, k: nat): nat
  {
    x * Pow2(k)
  }

  /** `x | y` on unbounded non-negative integers, bit by bit from the least significant end. */
  function Or(x: nat, y: nat): nat
    decreases x + y
  {
    if x == 0 then y
    else if y == 0 then x
    else 2 * Or(x / 2, y / 2) + (if x % 2 == 1 || y % 2 == 1 then 1 else 0)
  }

  /** OR-ing a value below `2^k` with a multiple of `2^k` touches disjoint bits, so it adds. */
  lemma {:induction false} OrDisjoint(x: nat, y: nat, k: nat)
    requires x < Pow2(k)
    ensures Or(x, Shl(y, k)) == x + Shl(y, k)
  {
    if x == 0 || y == 0 {
    } else {
      assert k > 0;
      var h := Shl(y, k - 1);
      assert Shl(y, k) == 2 * h;
      assert Shl(y, k) / 2 == h && Shl(y, k) % 2 == 0;
      OrDisjoint(x / 2, y, k - 1);
      assert Or(x / 2, h) == x / 2 + h;
    }
  }

  /** The 16-bit little-endian value of two bytes, low byte first. The source computes it as
      `lo | (hi << 8)`; Le16IsBitwiseOr proves that this is the same number. */
  function Le16(lo: byte, hi: byte): nat
  {
    lo + 256 * hi
  }

  /** The 32-bit little-endian value of four bytes, `b0` least significant. The source computes
      it as `b0 | (b1 << 8) | (b2 << 16) | (b3 << 24)`; Le32IsBitwiseOr proves that this is the
      same number. */
  function Le32(b0: byte, b1: byte, b2: byte, b3: byte): nat
  {
    b0 + 256 * b1 + 0x1_0000 * b2 + 0x100_0000 * b3
  }

  /** `lo | (hi << 8)` on bytes equals the little-endian value, which is below 2^16. */
  lemma Le16IsBitwiseOr(lo: byte, hi: byte)
    ensures Or(lo, Shl(hi, 8)) == Le16(lo, hi) < 0x1_0000
  {
    ShiftAmounts();
    OrDisjoint(lo, hi, 8);
  }

  /** `b0 | (b1 << 8) | (b2 << 16) | (b3 << 24)` on bytes equals the little-endian value, which
      is below 2^32. */
  lemma Le32IsBitwiseOr(b0: byte, b1: byte, b2: byte, b3: byte)
    ensures Or(Or(Or(b0, Shl(b1, 8)), Shl(b2, 16)), Shl(b3, 24)) == Le32(b0, b1, b2, b3) < 0x1_0000_0000
  {
    ShiftAmounts();
    var x1 := b0 + 256 * b1;
    var x2 := x1 + 0x1_0000 * b2;
    OrDisjoint(b0, b1, 8);
    assert Or(b0, Shl(b1, 8)) == x1;
    OrDisjoint(x1, b2, 16);
    assert Or(x1, Shl(b2, 16)) == x2;
    OrDisjoint(x2, b3, 24);
  }

  /** The powers of two the source shifts by. */
  lemma ShiftAmounts()
    ensures Pow2(8) == 256 && Pow2(16) == 0x1_0000 && Pow2(24) == 0x100_0000
  {
    PowAdd(8, 8);
    PowAdd(16, 8);
  }

  lemma {:induction false} PowAdd(a: nat, b: nat)
    ensures Pow2(a + b) == Pow2(a) * Pow2(b)
  {
    if b > 0 {
      PowAdd(a, b - 1);
      assert Pow2(a + b) == 2 * Pow2(a + b - 1);
    }
  }

  /** Quotient and remainder are unique: `q * d + r` with `0 <= r < d` divides back into `q` and
      `r`; stated for the three divisors a little-endian u32 is taken apart with. */
  lemma DivModUnique(q: int, r: int)
    ensures 0 <= r < 256 ==> (q * 256 + r) / 256 == q && (q * 256 + r) % 256 == r
    ensures 0 <= r < 0x1_0000 ==> (q * 0x1_0000 + r) / 0x1_0000 == q
    ensures 0 <= r < 0x100_0000 ==> (q * 0x100_0000 + r) / 0x100_0000 == q
  {
  }

  /** Reading the two bytes back out of a little-endian u16. */
  lemma Le16Bytes(lo: byte, hi: byte)
    ensures Le16(lo, hi) % 256 == lo && Le16(lo, hi) / 256 == hi
  {
    DivModUnique(hi, lo);
  }

  /** Reading the four bytes back out of a little-endian u32: each byte is recovered
      from its own position, so the value determines the bytes it was built from. */
  lemma Le32Bytes(b0: byte, b1: byte, b2: byte, b3: byte)
    ensures var n := Le32(b0, b1, b2, b3);
      && n % 256 == b0
      && n / 256 % 256 == b1
      && n / 0x1_0000 % 256 == b2
      && n / 0x100_0000 == b3
  {
    var n := Le32(b0, b1, b2, b3);
    DivModUnique(b1 + 256 * b2 + 0x1_0000 * b3, b0);
    DivModUnique(b2 + 256 * b3, b1);
    DivModUnique(b2 + 256 * b3, b0 + 256 * b1);
    DivModUnique(b3, b2);
    DivModUnique(b3, b0 + 256 * b1 + 0x1_0000 * b2);
  }

  /** Two byte groups decode to the same u32 exactly when they are the same bytes. */
  lemma Le32Injective(a0: byte, a1: byte, a2: byte, a3: byte, b0: byte, b1: byte, b2: byte, b3: byte)
    ensures Le32(a0, a1, a2, a3) == Le32(b0, b1, b2, b3) <==> a0 == b0 && a1 == b1 && a2 == b2 && a3 == b3
  {
    Le32Bytes(a0, a1, a2, a3);
    Le32Bytes(b0, b1, b2, b3);
  }
}
