/** Reading CRC-24Q machine words as polynomials: exclusive or is addition, doubling is multiplication by x. */
module Crc24qWords {
  import opened Crc24qTable
  import opened Polynomials

  type byte = bv8

  predicate Test(b: byte, mask: byte) {
    b & mask != 0
  }

  /** The bits of a byte, most significant first. */
  function BitsOf(b: byte): (bits: Poly)
    ensures |bits| == 8
  {
    [Test(b, 0x80), Test(b, 0x40), Test(b, 0x20), Test(b, 0x10),
     Test(b, 0x08), Test(b, 0x04), Test(b, 0x02), Test(b, 0x01)]
  }

  function MessageBits(bytes: seq<byte>): (bits: Poly)
    ensures |bits| == 8 * |bytes|
  {
    if bytes == [] then [] else MessageBits(bytes[..|bytes| - 1]) + BitsOf(bytes[|bytes| - 1])
  }

  function Byte2(w: bv32): byte { ((w >> 16) & 0xFF) as byte }

  function Byte1(w: bv32): byte { ((w >> 8) & 0xFF) as byte }

  function Byte0(w: bv32): byte { (w & 0xFF) as byte }

  /** The CRC held in a running word: its low 24 bits. */
  function Crc(w: bv32): (r: Poly)
    ensures |r| == 24
  {
    BitsOf(Byte2(w)) + BitsOf(Byte1(w)) + BitsOf(Byte0(w))
  }

  function ByteXor(a: byte, b: byte): byte { a ^ b }

  function WordXor(v: bv32, w: bv32): bv32 { v ^ w }

  lemma Xor7(a: byte, b: byte) ensures BitsOf(ByteXor(a, b))[0] == Add(BitsOf(a), BitsOf(b))[0] {}
  lemma Xor6(a: byte, b: byte) ensures BitsOf(ByteXor(a, b))[1] == Add(BitsOf(a), BitsOf(b))[1] {}
  lemma Xor5(a: byte, b: byte) ensures BitsOf(ByteXor(a, b))[2] == Add(BitsOf(a), BitsOf(b))[2] {}
  lemma Xor4(a: byte, b: byte) ensures BitsOf(ByteXor(a, b))[3] == Add(BitsOf(a), BitsOf(b))[3] {}
  lemma Xor3(a: byte, b: byte) ensures BitsOf(ByteXor(a, b))[4] == Add(BitsOf(a), BitsOf(b))[4] {}
  lemma Xor2(a: byte, b: byte) ensures BitsOf(ByteXor(a, b))[5] == Add(BitsOf(a), BitsOf(b))[5] {}
  lemma Xor1(a: byte, b: byte) ensures BitsOf(ByteXor(a, b))[6] == Add(BitsOf(a), BitsOf(b))[6] {}
  lemma Xor0(a: byte, b: byte) ensures BitsOf(ByteXor(a, b))[7] == Add(BitsOf(a), BitsOf(b))[7] {}

  lemma BitsOfXor(a: byte, b: byte)
    ensures BitsOf(ByteXor(a, b)) == Add(BitsOf(a), BitsOf(b))
  {
    hide *;
    Xor7(a, b); Xor6(a, b); Xor5(a, b); Xor4(a, b); Xor3(a, b); Xor2(a, b); Xor1(a, b); Xor0(a, b);
  }

  lemma BytesXor(v: bv32, w: bv32)
    ensures Byte2(WordXor(v, w)) == ByteXor(Byte2(v), Byte2(w))
    ensures Byte1(WordXor(v, w)) == ByteXor(Byte1(v), Byte1(w))
    ensures Byte0(WordXor(v, w)) == ByteXor(Byte0(v), Byte0(w))
  {
  }

  lemma CrcXor(v: bv32, w: bv32)
    ensures Crc(WordXor(v, w)) == Add(Crc(v), Crc(w))
  {
    hide Byte0, Byte1, Byte2, BitsOf, ByteXor, WordXor;
    BytesXor(v, w);
    BitsOfXor(Byte2(v), Byte2(w));
    BitsOfXor(Byte1(v), Byte1(w));
    BitsOfXor(Byte0(v), Byte0(w));
  }

  function ShiftIn(b: byte, c: byte): byte { (b << 1) | (c >> 7) }

  function Double(w: bv32): bv32 { w << 1 }

  lemma TestShift(b: byte, c: byte)
    ensures Test(ShiftIn(b, c), 0x80) == Test(b, 0x40) && Test(ShiftIn(b, c), 0x40) == Test(b, 0x20)
    ensures Test(ShiftIn(b, c), 0x20) == Test(b, 0x10) && Test(ShiftIn(b, c), 0x10) == Test(b, 0x08)
    ensures Test(ShiftIn(b, c), 0x08) == Test(b, 0x04) && Test(ShiftIn(b, c), 0x04) == Test(b, 0x02)
    ensures Test(ShiftIn(b, c), 0x02) == Test(b, 0x01) && Test(ShiftIn(b, c), 0x01) == Test(c, 0x80)
  {
  }

  lemma BitsOfShift(b: byte, c: byte)
    ensures BitsOf(ShiftIn(b, c)) == BitsOf(b)[1..] + BitsOf(c)[..1]
  {
    hide Test, ShiftIn;
    TestShift(b, c);
  }

  lemma BytesShift(w: bv32)
    ensures Byte2(Double(w)) == ShiftIn(Byte2(w), Byte1(w))
    ensures Byte1(Double(w)) == ShiftIn(Byte1(w), Byte0(w))
    ensures Byte0(Double(w)) == ShiftIn(Byte0(w), 0)
  {
  }

  lemma ZeroByteTop()
    ensures BitsOf(0)[..1] == [false]
  {
  }

  lemma CrcShift(w: bv32)
    ensures Crc(Double(w)) == Crc(w)[1..] + [false]
  {
    ZeroByteTop();
    hide Byte0, Byte1, Byte2, BitsOf, ShiftIn, Double;
    BytesShift(w);
    BitsOfShift(Byte2(w), Byte1(w));
    BitsOfShift(Byte1(w), Byte0(w));
    BitsOfShift(Byte0(w), 0);
  }

  lemma CrcGenerator()
    ensures Crc(0x1864CFB) == Generator()[1..]
  {
  }

  lemma CrcTop(w: bv32)
    ensures Crc(w)[0] == (w & 0x800000 != 0)
  {
  }

  /** Doubling a machine word modulo the generator is multiplication by x. */
  lemma CrcTimesX(w: bv32)
    ensures Crc(WordTimesX(w)) == TimesX(Crc(w))
  {
    hide Crc;
    CrcShift(w);
    CrcGenerator();
    CrcXor(Double(w), 0x1864CFB);
    CrcTop(w);
  }
}
