/** Both checksums are remainders: of what is divided by which polynomial, and nothing else. */
module CrcRemainder {
  import opened Bytes
  import opened Crc
  import opened CrcProofs
  import opened Packets
  import opened Polynomials

  // ----- CRC32

  const CRC32_DIVISOR: Bits := Terms({32, 26, 23, 22, 16, 12, 11, 10, 8, 7, 5, 4, 2, 1, 0}, 32)

  lemma Crc32DivisorIsPolynomial()
    ensures CRC32_DIVISOR == [true] + CRC32_POLYNOMIAL
  {
    AllBitsOfPolynomial();
    var p := ByteBits(0x04) + ByteBits(0xC1) + ByteBits(0x1D) + ByteBits(0xB7);
    assert ByteBits(0x04) == [false, false, false, false, false, true, false, false];
    assert ByteBits(0xC1) == [true, true, false, false, false, false, false, true];
    assert ByteBits(0x1D) == [false, false, false, true, true, true, false, true];
    assert ByteBits(0xB7) == [true, false, true, true, false, true, true, true];
    assert CRC32_DIVISOR == [true] + p;
  }

  lemma AllBitsOfPolynomial()
    ensures CRC32_POLYNOMIAL == ByteBits(0x04) + ByteBits(0xC1) + ByteBits(0x1D) + ByteBits(0xB7)
  {
    AllBitsOfFour(0x04, 0xC1, 0x1D, 0xB7);
  }

  /** The register always holds the remainder of its start and all bits fed. */
  lemma {:induction false} RegisterIsRemainder(start: Word32, bits: Bits) returns (quotient: Bits)
    ensures Divides(start + bits, CRC32_DIVISOR, quotient, Crc32Bits(start, bits))
  {
    if bits == [] {
      quotient := [];
      assert Xor(Zeros(32), Zeros(0) + start) == start;
    } else {
      var front, bit := bits[..|bits| - 1], bits[|bits| - 1];
      quotient := RegisterIsRemainder(start, front);
      RegisterStep(Crc32Bits(start, front), bit);
      BringDown(start + front, CRC32_DIVISOR, quotient, Crc32Bits(start, front), bit, Crc32Bits(start, bits));
      assert start + bits == start + front + [bit];
      quotient := quotient + [Crc32Bits(start, front)[0]];
    }
  }

  lemma RegisterStep(crc: Word32, bit: bool)
    ensures [false] + Crc32Bit(crc, bit) == Xor(crc + [bit], if crc[0] then CRC32_DIVISOR else Zeros(33))
  {
    Crc32DivisorIsPolynomial();
  }

  /** The CRC32 of a message is the remainder of 32 ones, the message and 32 zeros. */
  lemma {:induction false} Crc32IsRemainder(bytes: seq<Byte>, value: Word32)
    ensures value == Crc32Of(bytes) <==> IsRemainder(Ones(32) + AllBits(bytes) + Zeros(32), CRC32_DIVISOR, value)
  {
    var dividend := Ones(32) + AllBits(bytes) + Zeros(32);
    Crc32FoldIsBits(CRC32_INIT, bytes);
    Crc32ValueIsBits(Fold(Crc32Next, CRC32_INIT, bytes));
    Crc32BitsConcat(Ones(32), AllBits(bytes), Zeros(32));
    var quotient := RegisterIsRemainder(Ones(32), AllBits(bytes) + Zeros(32));
    assert dividend == Ones(32) + (AllBits(bytes) + Zeros(32));
    assert Divides(dividend, CRC32_DIVISOR, quotient, Crc32Of(bytes));
    if IsRemainder(dividend, CRC32_DIVISOR, value) {
      RemainderIsUnique(dividend, CRC32_DIVISOR, value, Crc32Of(bytes));
    }
  }

  // ----- CRC8, low bits first

  const CRC8_DIVISOR: Bits := Terms({8, 5, 4, 0}, 8)

  /** The bits of a byte, least significant first. */
  function LowFirst(b: Byte): (r: Bits)
    ensures |r| == 8
  {
    seq(8, i requires 0 <= i < 8 => BitOf(b, 7 - i))
  }

  function AllLowFirst(bytes: seq<Byte>): (r: Bits)
    ensures |r| == 8 * |bytes|
  {
    if bytes == [] then [] else AllLowFirst(bytes[..|bytes| - 1]) + LowFirst(bytes[|bytes| - 1])
  }

  /** One bit into the register. */
  function Crc8Feed(crc: Byte, bit: bool): Byte {
    Crc8Bit(if bit then crc ^ 1 else crc)
  }

  function Crc8Feeds(crc: Byte, bits: Bits): Byte {
    if bits == [] then crc else Crc8Feed(Crc8Feeds(crc, bits[..|bits| - 1]), bits[|bits| - 1])
  }

  lemma Crc8BitAt(crc: Byte, i: nat)
    requires i < 8
    ensures BitOf(Crc8Bit(crc), i) == ((i > 0 && BitOf(crc, i - 1)) != (BitOf(crc, 7) && BitOf(0x8C, i)))
  {
    match i {
      case 0 => case 1 => case 2 => case 3 => case 4 => case 5 => case 6 => case 7 =>
    }
  }

  lemma FlippedAt(crc: Byte, i: nat)
    requires i < 8
    ensures BitOf(crc ^ 1, i) == (BitOf(crc, i) != (i == 7))
  {
    match i {
      case 0 => case 1 => case 2 => case 3 => case 4 => case 5 => case 6 => case 7 =>
    }
  }

  lemma Crc8FeedBit(crc: Byte, bit: bool, i: nat)
    requires i < 8
    ensures BitOf(Crc8Feed(crc, bit), i)
         == ((i > 0 && BitOf(crc, i - 1)) != (BitOf(crc, 7) != bit && BitOf(0x8C, i)))
  {
    Crc8BitAt(if bit then crc ^ 1 else crc, i);
    FlippedAt(crc, 7);
    if i > 0 { FlippedAt(crc, i - 1); }
  }

  lemma Crc8DivisorIsPolynomial()
    ensures CRC8_DIVISOR == [true] + LowFirst(0x8C)
  {
    assert LowFirst(0x8C) == [false, false, true, true, false, false, false, true];
  }

  lemma Crc8Step(crc: Byte, bit: bool)
    ensures var entered := Xor(LowFirst(crc) + [false], [bit] + Zeros(8));
            [false] + LowFirst(Crc8Feed(crc, bit)) == Xor(entered, if entered[0] then CRC8_DIVISOR else Zeros(9))
  {
    Crc8DivisorIsPolynomial();
    var entered := Xor(LowFirst(crc) + [false], [bit] + Zeros(8));
    var reduced := Xor(entered, if entered[0] then CRC8_DIVISOR else Zeros(9));
    forall k | 0 <= k < 9 ensures reduced[k] == ([false] + LowFirst(Crc8Feed(crc, bit)))[k] {
      if k > 0 { Crc8FeedBit(crc, bit, 8 - k); }
    }
  }

  /** From a clear register, it always holds the remainder of the bits fed and eight zeros. */
  lemma {:induction false} Crc8RegisterIsRemainder(bits: Bits) returns (quotient: Bits)
    ensures |quotient| == |bits|
    ensures Divides(bits + Zeros(8), CRC8_DIVISOR, quotient, LowFirst(Crc8Feeds(0, bits)))
  {
    if bits == [] {
      quotient := [];
      assert LowFirst(0) == Zeros(8);
      assert Xor(Zeros(8), Zeros(0) + Zeros(8)) == [] + Zeros(8);
    } else {
      var front, bit := bits[..|bits| - 1], bits[|bits| - 1];
      var crc := Crc8Feeds(0, front);
      quotient := Crc8RegisterIsRemainder(front);
      Crc8Step(crc, bit);
      BringIn(front, CRC8_DIVISOR, quotient, LowFirst(crc), bit, LowFirst(Crc8Feed(crc, bit)));
      assert bits == front + [bit];
      quotient := quotient + [LowFirst(crc)[0] != bit];
    }
  }

  /** What is xor-ed in above the lowest bit can wait for the next step. */
  lemma Crc8BitLater(crc: Byte, x: Byte)
    ensures Crc8Bit(crc ^ x) == Crc8Feed(crc, x & 1 != 0) ^ (x >> 1)
  {
  }

  function ShiftRight(byte: Byte): Byte {
    byte >> 1
  }

  /** What a byte has become after `n` right shifts. */
  function ShiftedRight(byte: Byte, n: nat): Byte
    requires n <= 8
  {
    if n == 0 then byte else ShiftRight(ShiftedRight(byte, n - 1))
  }

  lemma {:induction false} ShiftedLowBit(byte: Byte, n: nat)
    requires n <= 8
    ensures n < 8 ==> (ShiftedRight(byte, n) & 1 != 0) == LowFirst(byte)[n]
    ensures n == 8 ==> ShiftedRight(byte, n) == 0
  {
    var b1 := byte >> 1;
    var b2 := b1 >> 1;
    var b3 := b2 >> 1;
    var b4 := b3 >> 1;
    var b5 := b4 >> 1;
    var b6 := b5 >> 1;
    var b7 := b6 >> 1;
    assert ShiftedRight(byte, 0) == byte && ShiftedRight(byte, 1) == b1;
    assert ShiftedRight(byte, 2) == b2 && ShiftedRight(byte, 3) == b3;
    assert ShiftedRight(byte, 4) == b4 && ShiftedRight(byte, 5) == b5;
    assert ShiftedRight(byte, 6) == b6 && ShiftedRight(byte, 7) == b7;
    assert ShiftedRight(byte, 8) == b7 >> 1;
  }

  function Crc8BitTimes(crc: Byte, n: nat): Byte {
    if n == 0 then crc else Crc8Bit(Crc8BitTimes(crc, n - 1))
  }

  lemma Crc8ShiftIsEight(crc: Byte)
    ensures Crc8Shift(crc) == Crc8BitTimes(crc, 8)
  {
    var c1 := Crc8Bit(crc);
    var c2 := Crc8Bit(c1);
    var c3 := Crc8Bit(c2);
    var c4 := Crc8Bit(c3);
    var c5 := Crc8Bit(c4);
    assert Crc8BitTimes(crc, 1) == c1 && Crc8BitTimes(crc, 2) == c2 && Crc8BitTimes(crc, 3) == c3;
    assert Crc8BitTimes(crc, 4) == c4 && Crc8BitTimes(crc, 5) == c5 && Crc8BitTimes(crc, 6) == Crc8Bit(c5);
    assert Crc8BitTimes(crc, 7) == Crc8Bit(Crc8Bit(c5));
  }

  /** A byte xor-ed in at once goes in bit by bit. */
  lemma {:induction false} ByteGoesInBitByBit(crc: Byte, byte: Byte, n: nat)
    requires n <= 8
    ensures Crc8BitTimes(crc ^ byte, n) == Crc8Feeds(crc, LowFirst(byte)[..n]) ^ ShiftedRight(byte, n)
  {
    if n > 0 {
      ByteGoesInBitByBit(crc, byte, n - 1);
      ShiftedLowBit(byte, n - 1);
      Crc8BitLater(Crc8Feeds(crc, LowFirst(byte)[..n - 1]), ShiftedRight(byte, n - 1));
      assert LowFirst(byte)[..n][..n - 1] == LowFirst(byte)[..n - 1];
    }
  }

  lemma Crc8NextFeeds(crc: Byte, byte: Byte)
    ensures Crc8Next(crc, byte) == Crc8Feeds(crc, LowFirst(byte))
  {
    Crc8ShiftIsEight(crc ^ byte);
    ByteGoesInBitByBit(crc, byte, 8);
    ShiftedLowBit(byte, 8);
    assert LowFirst(byte)[..8] == LowFirst(byte);
  }

  lemma {:induction false} Crc8FeedsConcat(crc: Byte, a: Bits, b: Bits)
    ensures Crc8Feeds(crc, a + b) == Crc8Feeds(Crc8Feeds(crc, a), b)
  {
    if b == [] {
      assert a + b == a;
    } else {
      var front := b[..|b| - 1];
      Crc8FeedsConcat(crc, a, front);
      assert (a + b)[..|a + b| - 1] == a + front;
    }
  }

  lemma {:induction false} Crc8FoldIsFeeds(bytes: seq<Byte>)
    ensures Crc8Of(bytes) == Crc8Feeds(0, AllLowFirst(bytes))
  {
    if bytes != [] {
      var front, last := bytes[..|bytes| - 1], bytes[|bytes| - 1];
      Crc8FoldIsFeeds(front);
      Crc8NextFeeds(Crc8Of(front), last);
      Crc8FeedsConcat(0, AllLowFirst(front), LowFirst(last));
    }
  }

  lemma {:induction false} SameLowFirstSameByte(a: Byte, b: Byte)
    requires LowFirst(a) == LowFirst(b)
    ensures a == b
  {
    forall i | 0 <= i < 8 ensures BitOf(a, i) == BitOf(b, i) {
      assert LowFirst(a)[7 - i] == LowFirst(b)[7 - i];
    }
    assert ByteBits(a) == ByteBits(b);
    SameBitsSameByte(a, b);
  }

  /** The CRC8 of a message, low bits first, is the remainder of the message, low bits first, and eight zeros. */
  lemma {:induction false} Crc8IsRemainder(bytes: seq<Byte>, value: Byte)
    ensures value == Crc8Of(bytes) <==> IsRemainder(AllLowFirst(bytes) + Zeros(8), CRC8_DIVISOR, LowFirst(value))
  {
    var dividend := AllLowFirst(bytes) + Zeros(8);
    Crc8FoldIsFeeds(bytes);
    var quotient := Crc8RegisterIsRemainder(AllLowFirst(bytes));
    assert Divides(dividend, CRC8_DIVISOR, quotient, LowFirst(Crc8Of(bytes)));
    if IsRemainder(dividend, CRC8_DIVISOR, LowFirst(value)) {
      RemainderIsUnique(dividend, CRC8_DIVISOR, LowFirst(value), LowFirst(Crc8Of(bytes)));
      SameLowFirstSameByte(value, Crc8Of(bytes));
    }
  }
}
