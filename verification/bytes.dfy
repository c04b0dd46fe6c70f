/** Octets as bounded integers, and the bitwise exclusive-or that CBC mode needs. */
module Bytes {

  type byte = b: int | 0 <= b < 256

  function Pow2(n: nat): (r: nat)
    ensures r >= 1
  {
    if n == 0 then 1 else 2 * Pow2(n - 1)
  }

  /** The low bit of `a` and `b` combined by exclusive-or. */
  function XorBit(a: nat, b: nat): (r: nat)
  {
    if a % 2 == b % 2 then 0 else 1
  }

  /** Exclusive-or of the low `n` bits of `a` and `b`, one bit per step. */
  function XorBits(a: nat, b: nat, n: nat): nat
  {
    if n == 0 then 0 else 2 * XorBits(a / 2, b / 2, n - 1) + XorBit(a, b)
  }

  lemma {:induction false} XorBitsBound(a: nat, b: nat, n: nat)
    ensures XorBits(a, b, n) < Pow2(n)
  {
    if n > 0 {
      XorBitsBound(a / 2, b / 2, n - 1);
    }
  }

  function Xor(a: byte, b: byte): (r: byte)
  {
    XorBitsBound(a, b, 8);
    assert Pow2(8) == 256;
    XorBits(a, b, 8)
  }

  /** The low `n` bits of `a`, rebuilt one bit per step. */
  function LowBits(a: nat, n: nat): nat
  {
    if n == 0 then 0 else 2 * LowBits(a / 2, n - 1) + a % 2
  }

  lemma {:induction false} LowBitsSmall(a: nat, n: nat)
    requires a < Pow2(n)
    ensures LowBits(a, n) == a
  {
    if n > 0 {
      LowBitsSmall(a / 2, n - 1);
    }
  }

  /** Halving `2 * x + bit` gives back `x` and `bit`. */
  lemma HalveTwice(x: nat, bit: nat)
    requires bit < 2
    ensures (2 * x + bit) / 2 == x && (2 * x + bit) % 2 == bit
  {
  }

  lemma {:induction false} XorBitsUndo(a: nat, b: nat, n: nat)
    ensures XorBits(XorBits(a, b, n), b, n) == LowBits(a, n)
  {
    if n > 0 {
      var x := XorBits(a / 2, b / 2, n - 1);
      var r := 2 * x + XorBit(a, b);
      assert r == XorBits(a, b, n);
      HalveTwice(x, XorBit(a, b));
      XorBitsUndo(a / 2, b / 2, n - 1);
      assert XorBits(r, b, n) == 2 * XorBits(x, b / 2, n - 1) + XorBit(r, b);
      assert XorBit(r, b) == a % 2;
    }
  }

  /** XOR with the same byte twice restores the original byte. */
  lemma XorUndo(a: byte, b: byte)
    ensures Xor(Xor(a, b), b) == a
  {
    XorBitsUndo(a, b, 8);
    assert Pow2(8) == 256;
    LowBitsSmall(a, 8);
  }
}
