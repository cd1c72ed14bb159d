/** Bitwise operations on bytes, bit by bit. */
module Bits {
  import opened Bytes

  function Pow2(n: nat): (r: nat)
    ensures r >= 1
  {
    if n == 0 then 1 else 2 * Pow2(n - 1)
  }

  lemma ByteWidth()
    ensures Pow2(8) == 256
  {
    assert Pow2(4) == 16;
    assert Pow2(7) == 8 * Pow2(4);
  }

  function XorBits(a: nat, b: nat, bits: nat): (r: nat)
    ensures r < Pow2(bits)
  {
    if bits == 0 then 0
    else (if a % 2 == b % 2 then 0 else 1) + 2 * XorBits(a / 2, b / 2, bits - 1)
  }

  function OrBits(a: nat, b: nat, bits: nat): (r: nat)
    ensures r < Pow2(bits)
  {
    if bits == 0 then 0
    else (if a % 2 == 1 || b % 2 == 1 then 1 else 0) + 2 * OrBits(a / 2, b / 2, bits - 1)
  }

  function Xor(a: byte, b: byte): (r: byte)
  {
    ByteWidth();
    XorBits(a, b, 8)
  }

  function Or(a: byte, b: byte): (r: byte)
  {
    ByteWidth();
    OrBits(a, b, 8)
  }

  lemma LowBit(bit: nat, rest: nat)
    requires bit < 2
    ensures (bit + 2 * rest) % 2 == bit && (bit + 2 * rest) / 2 == rest
  {
  }

  lemma {:induction false} XorBitsInvolutive(a: nat, b: nat, bits: nat)
    requires a < Pow2(bits)
    ensures XorBits(XorBits(a, b, bits), b, bits) == a
  {
    if bits > 0 {
      XorBitsInvolutive(a / 2, b / 2, bits - 1);
      LowBit(if a % 2 == b % 2 then 0 else 1, XorBits(a / 2, b / 2, bits - 1));
    }
  }

  /** Bit `i`, the lowest first. */
  function Bit(n: nat, i: nat): (r: nat)
  {
    if i == 0 then n % 2 else Bit(n / 2, i - 1)
  }

  lemma {:induction false} XorBit(a: nat, b: nat, bits: nat, i: nat)
    requires i < bits
    ensures Bit(XorBits(a, b, bits), i) == if Bit(a, i) == Bit(b, i) then 0 else 1
  {
    LowBit(if a % 2 == b % 2 then 0 else 1, XorBits(a / 2, b / 2, bits - 1));
    if i > 0 {
      XorBit(a / 2, b / 2, bits - 1, i - 1);
    }
  }

  lemma {:induction false} OrBit(a: nat, b: nat, bits: nat, i: nat)
    requires i < bits
    ensures Bit(OrBits(a, b, bits), i) == if Bit(a, i) == 1 || Bit(b, i) == 1 then 1 else 0
  {
    LowBit(if a % 2 == 1 || b % 2 == 1 then 1 else 0, OrBits(a / 2, b / 2, bits - 1));
    if i > 0 {
      OrBit(a / 2, b / 2, bits - 1, i - 1);
    }
  }

  lemma XorInvolutive(a: byte, b: byte)
    ensures Xor(Xor(a, b), b) == a
  {
    ByteWidth();
    XorBitsInvolutive(a, b, 8);
  }

  lemma {:induction false} XorBitsZero(a: nat, b: nat, bits: nat)
    requires a < Pow2(bits) && b < Pow2(bits)
    ensures XorBits(a, b, bits) == 0 <==> a == b
  {
    if bits > 0 {
      XorBitsZero(a / 2, b / 2, bits - 1);
    }
  }

  lemma {:induction false} OrBitsZero(a: nat, b: nat, bits: nat)
    requires a < Pow2(bits) && b < Pow2(bits)
    ensures OrBits(a, b, bits) == 0 <==> a == 0 && b == 0
  {
    if bits > 0 {
      OrBitsZero(a / 2, b / 2, bits - 1);
    }
  }

  /** The accumulator of a constant-time comparison stays zero exactly while the compared
      bytes are equal. */
  lemma AccumulatedDifference(diff: byte, a: byte, b: byte)
    ensures Or(diff, Xor(a, b)) == 0 <==> diff == 0 && a == b
  {
    ByteWidth();
    XorBitsZero(a, b, 8);
    OrBitsZero(diff, Xor(a, b), 8);
  }
}
