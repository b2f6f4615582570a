// Unsigned machine words as natural numbers, and their bits as polynomials over GF(2).
module Words {

  type Byte = x: int | 0 <= x < 0x100

  // The range of an unsigned 32-bit word.
  const UINT32: nat := 0x1_0000_0000

  // Coefficients, highest power first.
  type Poly = seq<bool>

  function Zeros(n: nat): (r: Poly)
    ensures |r| == n
    ensures forall i :: 0 <= i < n ==> !r[i]
  {
    seq(n, i => false)
  }

  // Sum, which over GF(2) is also the difference.
  function Xor(a: Poly, b: Poly): (r: Poly)
    requires |a| == |b|
    ensures |r| == |a|
    ensures forall i :: 0 <= i < |a| ==> r[i] == (a[i] != b[i])
  {
    seq(|a|, i requires 0 <= i < |a| => a[i] != b[i])
  }

  // The C operators on unsigned words: `>> k` is ShiftRight (or division by a power of two),
  // `<< k` multiplication, `& (2^k - 1)` remainder, `^` BitXor.
  function ShiftRight(c: nat, k: nat): nat
  {
    if k == 0 then c else ShiftRight(c / 2, k - 1)
  }

  function BitXor(a: nat, b: nat): nat
  {
    if a == 0 && b == 0 then 0 else 2 * BitXor(a / 2, b / 2) + (a + b) % 2
  }

  // The low n bits of a word, highest first.
  function LowBits(c: nat, n: nat): (r: Poly)
    ensures |r| == n
  {
    if n == 0 then [] else LowBits(c / 2, n - 1) + [c % 2 == 1]
  }

  lemma ShiftRight8(c: nat)
    ensures ShiftRight(c, 8) == c / 0x100
  {
    assert ShiftRight(c, 8) == ShiftRight(c / 2, 7) == ShiftRight(c / 4, 6);
    assert ShiftRight(c / 4, 6) == ShiftRight(c / 8, 5) == ShiftRight(c / 16, 4);
    assert ShiftRight(c / 16, 4) == ShiftRight(c / 32, 3) == ShiftRight(c / 64, 2);
    assert ShiftRight(c / 64, 2) == ShiftRight(c / 128, 1) == ShiftRight(c / 256, 0);
  }

  lemma {:induction false} ShiftRightSum(c: nat, j: nat, k: nat)
    ensures ShiftRight(c, j + k) == ShiftRight(ShiftRight(c, j), k)
  {
    if j > 0 {
      ShiftRightSum(c / 2, j - 1, k);
    }
  }

  lemma ShiftRight16(c: nat)
    ensures ShiftRight(c, 16) == c / 0x10000
  {
    ShiftRightSum(c, 8, 8);
    ShiftRight8(c);
    ShiftRight8(c / 0x100);
  }

  lemma ShiftRight24(c: nat)
    ensures ShiftRight(c, 24) == c / 0x1000000
  {
    ShiftRightSum(c, 8, 16);
    ShiftRight8(c);
    ShiftRight16(c / 0x100);
  }

  lemma {:induction false} LowBitsSplit(c: nat, n: nat, k: nat)
    ensures LowBits(c, n + k) == LowBits(ShiftRight(c, k), n) + LowBits(c, k)
  {
    if k == 0 {
      assert LowBits(c, n) + [] == LowBits(c, n);
    } else {
      LowBitsSplit(c / 2, n, k - 1);
      assert LowBits(c, n + k) == LowBits(c / 2, n + k - 1) + [c % 2 == 1];
    }
  }

  lemma {:induction false} LowBitsXor(a: nat, b: nat, n: nat)
    ensures LowBits(BitXor(a, b), n) == Xor(LowBits(a, n), LowBits(b, n))
  {
    hide LowBits, BitXor;
    LowBitsNone(BitXor(a, b), a, b);
    if n > 0 {
      LowBitsXor(a / 2, b / 2, n - 1);
      BitXorHalves(a, b);
      LowBitsNext(BitXor(a, b), n);
      LowBitsNext(a, n);
      LowBitsNext(b, n);
    }
  }

  lemma BitXorHalves(a: nat, b: nat)
    ensures BitXor(a, b) / 2 == BitXor(a / 2, b / 2)
    ensures (BitXor(a, b) % 2 == 1) == ((a % 2 == 1) != (b % 2 == 1))
  {
    hide BitXor;
    BitXorIs(a, b);
    Halves(BitXor(a / 2, b / 2), (a + b) % 2);
    SumParity(a, b);
  }

  lemma BitXorIs(a: nat, b: nat)
    ensures BitXor(a, b) == 2 * BitXor(a / 2, b / 2) + (a + b) % 2
  {
  }

  lemma Halves(h: nat, d: nat)
    requires d < 2
    ensures (2 * h + d) / 2 == h && (2 * h + d) % 2 == d
  {
  }

  lemma SumParity(a: nat, b: nat)
    ensures ((a + b) % 2 == 1) == ((a % 2 == 1) != (b % 2 == 1))
  {
  }

  lemma LowBitsNone(a: nat, b: nat, c: nat)
    ensures LowBits(a, 0) == LowBits(b, 0) == LowBits(c, 0) == []
  {
  }

  lemma LowBitsNext(c: nat, n: nat)
    requires n > 0
    ensures LowBits(c, n) == LowBits(c / 2, n - 1) + [c % 2 == 1]
  {
  }

  lemma {:induction false} ShiftRightXor(a: nat, b: nat, k: nat)
    ensures ShiftRight(BitXor(a, b), k) == BitXor(ShiftRight(a, k), ShiftRight(b, k))
  {
    if k > 0 {
      BitXorHalves(a, b);
      ShiftRightXor(a / 2, b / 2, k - 1);
    }
  }

  lemma {:induction false} LowBitsInjective(a: nat, b: nat, n: nat)
    requires ShiftRight(a, n) == ShiftRight(b, n) && LowBits(a, n) == LowBits(b, n)
    ensures a == b
  {
    if n > 0 {
      assert LowBits(a, n)[..n - 1] == LowBits(a / 2, n - 1);
      assert LowBits(b, n)[..n - 1] == LowBits(b / 2, n - 1);
      assert LowBits(a, n)[n - 1] == LowBits(b, n)[n - 1];
      LowBitsInjective(a / 2, b / 2, n - 1);
    }
  }

  lemma {:induction false} LowBitsZero(n: nat)
    ensures LowBits(0, n) == Zeros(n)
  {
    if n > 0 {
      LowBitsZero(n - 1);
    }
  }

  // Shifting a word left by eight brings in eight zeros.
  lemma LowBitsTimes256(c: nat, n: nat)
    ensures LowBits(c * 0x100, n + 8) == LowBits(c, n) + Zeros(8)
  {
    LowBitsSplit(c * 0x100, n, 8);
    ShiftRight8(c * 0x100);
    LowBits8(c * 0x100);
    LowBitsZero(8);
  }

  // Bits above the eighth do not matter to the low eight, and so on.
  lemma LowBits8(c: nat)
    ensures LowBits(c % 0x100, 8) == LowBits(c, 8)
  {
    assert Pow2(8) == 0x100;
    LowBitsMod(c, c % 0x100, c / 0x100, 8);
  }

  lemma LowBits24(c: nat)
    ensures LowBits(c % 0x1000000, 24) == LowBits(c, 24)
  {
    assert Pow2(8) == 0x100;
    assert Pow2(16) == 0x10000;
    assert Pow2(24) == 0x1000000;
    LowBitsMod(c, c % 0x1000000, c / 0x1000000, 24);
  }

  function Pow2(n: nat): nat
  {
    if n == 0 then 1 else 2 * Pow2(n - 1)
  }

  lemma {:induction false} LowBitsMod(c: nat, d: nat, q: nat, n: nat)
    requires c == q * Pow2(n) + d
    ensures LowBits(d, n) == LowBits(c, n)
  {
    if n > 0 {
      assert c == 2 * (q * Pow2(n - 1)) + d;
      assert c / 2 == q * Pow2(n - 1) + d / 2;
      LowBitsMod(c / 2, d / 2, q, n - 1);
    }
  }
}
