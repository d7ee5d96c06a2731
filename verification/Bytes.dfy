/** Bytes as numbers, and their exclusive or bit by bit. */
module Bytes {

  type Byte = b: int | 0 <= b < 256

  function Power2(k: nat): nat {
    if k == 0 then 1 else 2 * Power2(k - 1)
  }

  /** Over the lowest `bits` bits. */
  function Xor(a: nat, b: nat, bits: nat): (r: nat)
    ensures r < Power2(bits)
  {
    if bits == 0 then 0 else 2 * Xor(a / 2, b / 2, bits - 1) + (a % 2 + b % 2) % 2
  }

  function XorByte(a: Byte, b: Byte): Byte {
    EightBits();
    Xor(a, b, 8)
  }

  lemma EightBits()
    ensures Power2(8) == 256
  {
    assert Power2(4) == 16;
  }

  lemma XorHalves(a: nat, b: nat, bits: nat)
    requires bits > 0
    ensures Xor(a, b, bits) / 2 == Xor(a / 2, b / 2, bits - 1)
    ensures Xor(a, b, bits) % 2 == if a % 2 == b % 2 then 0 else 1
  {
    var high := Xor(a / 2, b / 2, bits - 1);
    assert (a % 2 + b % 2) % 2 == if a % 2 == b % 2 then 0 else 1;
    TwoParts(high, (a % 2 + b % 2) % 2);
  }

  lemma TwoParts(high: nat, low: nat)
    requires low < 2
    ensures (2 * high + low) / 2 == high && (2 * high + low) % 2 == low
  {
  }

  lemma HalvesDecide(a: nat, b: nat)
    requires a / 2 == b / 2 && a % 2 == b % 2
    ensures a == b
  {
  }

  lemma {:induction false} XorUndoesBits(a: nat, b: nat, bits: nat)
    requires a < Power2(bits) && b < Power2(bits)
    ensures Xor(Xor(a, b, bits), a, bits) == b && Xor(a, b, bits) == Xor(b, a, bits)
  {
    if bits > 0 {
      XorUndoesBits(a / 2, b / 2, bits - 1);
      var x, y := Xor(a, b, bits), Xor(b, a, bits);
      XorHalves(a, b, bits);
      XorHalves(b, a, bits);
      XorHalves(x, a, bits);
      HalvesDecide(x, y);
      HalvesDecide(Xor(x, a, bits), b);
    }
  }

  /** Either operand takes itself out again. */
  lemma XorUndoes(a: Byte, b: Byte)
    ensures XorByte(XorByte(a, b), a) == b && XorByte(a, b) == XorByte(b, a)
  {
    EightBits();
    XorUndoesBits(a, b, 8);
  }
}
