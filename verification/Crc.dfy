/** The two running checksums: the Dallas/Maxim CRC8 and the augmented-message "CRC32". */
module Crc {
  import opened Bytes

  /** A checksum register after all bytes went in. */
  function Fold<S>(next: (S, Byte) -> S, crc: S, bytes: seq<Byte>): S {
    if bytes == [] then crc
    else next(Fold(next, crc, bytes[..|bytes| - 1]), bytes[|bytes| - 1])
  }

  lemma FoldSnoc<S>(next: (S, Byte) -> S, crc: S, bytes: seq<Byte>, byte: Byte)
    ensures Fold(next, crc, bytes + [byte]) == next(Fold(next, crc, bytes), byte)
  {
    assert (bytes + [byte])[..|bytes|] == bytes;
  }

  // ----- CRC8 by its polynomial x^8 + x^5 + x^4 + 1, one reflected bit at a time

  const CRC8_INIT: Byte := 0x00

  /** One bit-serial step of the reflected polynomial 0x8C. */
  function Crc8Bit(crc: Byte): Byte {
    if crc & 0x01 != 0 then (crc >> 1) ^ 0x8C else crc >> 1
  }

  function Crc8Shift(crc: Byte): Byte {
    Crc8Bit(Crc8Bit(Crc8Bit(Crc8Bit(Crc8Bit(Crc8Bit(Crc8Bit(Crc8Bit(crc))))))))
  }

  /** Eight bit-serial steps after the byte came in. */
  function Crc8Next(crc: Byte, byte: Byte): Byte {
    Crc8Shift(crc ^ byte)
  }

  function Crc8Of(bytes: seq<Byte>): Byte {
    Fold(Crc8Next, CRC8_INIT, bytes)
  }

  class Crc8 {
    var crc: Byte

    constructor ()
      ensures crc == CRC8_INIT
    {
      crc := CRC8_INIT;
    }

    method Reset()
      modifies this
      ensures crc == CRC8_INIT
    {
      crc := CRC8_INIT;
    }

    /** The combinational form: one table constant per set bit. */
    method Next(byte: Byte)
      modifies this
      ensures crc == Crc8Next(old(crc), byte)
    {
      crc := crc ^ byte;
      var tmp: Byte := 0;
      if crc & 0x01 != 0 { tmp := tmp ^ 0x5E; }
      if crc & 0x02 != 0 { tmp := tmp ^ 0xBC; }
      if crc & 0x04 != 0 { tmp := tmp ^ 0x61; }
      if crc & 0x08 != 0 { tmp := tmp ^ 0xC2; }
      if crc & 0x10 != 0 { tmp := tmp ^ 0x9D; }
      if crc & 0x20 != 0 { tmp := tmp ^ 0x23; }
      if crc & 0x40 != 0 { tmp := tmp ^ 0x46; }
      if crc & 0x80 != 0 { tmp := tmp ^ 0x8C; }
      crc := tmp;
    }

    method NextAll(bytes: seq<Byte>)
      modifies this
      ensures crc == Fold(Crc8Next, old(crc), bytes)
    {
      for i := 0 to |bytes|
        invariant crc == Fold(Crc8Next, old(crc), bytes[..i])
      {
        Next(bytes[i]);
        FoldSnoc(Crc8Next, old(crc), bytes[..i], bytes[i]);
        assert bytes[..i + 1] == bytes[..i] + [bytes[i]];
      }
      assert bytes[..|bytes|] == bytes;
    }
  }

  // ----- CRC32: a 32-bit register, most significant bit first

  const CRC32_INIT: Word32 := Ones(32)
  const CRC32_POLYNOMIAL: Word32 := AllBits([0x04, 0xC1, 0x1D, 0xB7])
  const FOUR_ZEROS: seq<Byte> := [0, 0, 0, 0]

  /** One turn of the shift loop: a bit enters at the low end, the polynomial answers the bit pushed out. */
  function Crc32Bit(crc: Word32, bit: bool): Word32 {
    if crc[0] then Xor(crc[1..] + [bit], CRC32_POLYNOMIAL) else crc[1..] + [bit]
  }

  /** The register after a run of bits. */
  function Crc32Bits(crc: Word32, bits: Bits): Word32 {
    if bits == [] then crc
    else Crc32Bit(Crc32Bits(crc, bits[..|bits| - 1]), bits[|bits| - 1])
  }

  function Crc32Next(crc: Word32, byte: Byte): Word32 {
    Crc32Bits(crc, ByteBits(byte))
  }

  /** What reading a register yields: four zero bytes are fed first. */
  function Crc32Value(crc: Word32): Word32 {
    Fold(Crc32Next, crc, FOUR_ZEROS)
  }

  /** The free function crc32. */
  function Crc32Of(bytes: seq<Byte>): Word32 {
    Crc32Value(Fold(Crc32Next, CRC32_INIT, bytes))
  }

  predicate TopBit(byte: Byte) {
    byte & 0x80 != 0
  }

  function ShiftLeft(byte: Byte): Byte {
    byte << 1
  }

  /** What a byte has become after `n` left shifts. */
  function ShiftedLeft(byte: Byte, n: nat): Byte
    requires n <= 8
  {
    if n == 0 then byte else ShiftLeft(ShiftedLeft(byte, n - 1))
  }

  lemma {:induction false} ShiftedTopBit(byte: Byte, n: nat)
    requires n < 8
    ensures TopBit(ShiftedLeft(byte, n)) == ByteBits(byte)[n]
  {
    var b1 := byte << 1;
    var b2 := b1 << 1;
    var b3 := b2 << 1;
    var b4 := b3 << 1;
    var b5 := b4 << 1;
    var b6 := b5 << 1;
    assert ShiftedLeft(byte, 0) == byte && ShiftedLeft(byte, 1) == b1;
    assert ShiftedLeft(byte, 2) == b2 && ShiftedLeft(byte, 3) == b3;
    assert ShiftedLeft(byte, 4) == b4 && ShiftedLeft(byte, 5) == b5;
    assert ShiftedLeft(byte, 6) == b6 && ShiftedLeft(byte, 7) == b6 << 1;
  }

  class Crc32 {
    var crc: Word32

    constructor ()
      ensures crc == CRC32_INIT
    {
      crc := CRC32_INIT;
    }

    method Reset()
      modifies this
      ensures crc == CRC32_INIT
    {
      crc := CRC32_INIT;
    }

    method Next(byte: Byte)
      modifies this
      ensures crc == Crc32Next(old(crc), byte)
    {
      var rest := byte;
      ghost var bits := ByteBits(byte);
      for i := 0 to 8
        invariant rest == ShiftedLeft(byte, i)
        invariant crc == Crc32Bits(old(crc), bits[..i])
      {
        var tmp := crc;
        ShiftedTopBit(byte, i);
        crc := crc[1..] + [false];
        if TopBit(rest) { crc := crc[31 := true]; }
        assert crc == tmp[1..] + [bits[i]];
        if tmp[0] { crc := Xor(crc, CRC32_POLYNOMIAL); }
        rest := ShiftLeft(rest);
        assert bits[..i + 1][..i] == bits[..i];
      }
      assert bits[..8] == bits;
    }

    method NextAll(bytes: seq<Byte>)
      modifies this
      ensures crc == Fold(Crc32Next, old(crc), bytes)
    {
      for i := 0 to |bytes|
        invariant crc == Fold(Crc32Next, old(crc), bytes[..i])
      {
        Next(bytes[i]);
        FoldSnoc(Crc32Next, old(crc), bytes[..i], bytes[i]);
        assert bytes[..i + 1] == bytes[..i] + [bytes[i]];
      }
      assert bytes[..|bytes|] == bytes;
    }

    /** Reads the checksum by feeding four zero bytes, then puts the register back. */
    method Value() returns (value: Word32)
      modifies this
      ensures value == Crc32Value(old(crc)) && crc == old(crc)
    {
      var cpy := crc;
      NextAll(FOUR_ZEROS);
      value := crc;
      crc := cpy;
    }
  }

  method ComputeCrc8(bytes: seq<Byte>) returns (crc: Byte)
    ensures crc == Crc8Of(bytes)
  {
    var c := new Crc8();
    c.NextAll(bytes);
    crc := c.crc;
  }

  method ComputeCrc32(bytes: seq<Byte>) returns (crc: Word32)
    ensures crc == Crc32Of(bytes)
  {
    var c := new Crc32();
    c.NextAll(bytes);
    crc := c.Value();
  }
}
