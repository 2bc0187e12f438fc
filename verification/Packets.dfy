/** Packet builders, and which packets a receiver finds sound. */
module Packets {
  import opened Bytes
  import opened Crc
  import opened CrcProofs
  import opened Command

  /** The byte whose top bits are these. */
  function ByteOf(bits: Bits): Byte
    requires |bits| <= 8
  {
    if bits == [] then 0 else PutBit(ByteOf(bits[..|bits| - 1]), |bits| - 1, bits[|bits| - 1])
  }

  lemma {:induction false} ByteOfBits(bits: Bits)
    requires |bits| <= 8
    ensures OpenFrom(ByteOf(bits), |bits|) && TopBits(ByteOf(bits), |bits|) == bits
  {
    if bits != [] {
      var n := |bits| - 1;
      ByteOfBits(bits[..n]);
      PutBitAppends(ByteOf(bits[..n]), n, bits[n]);
    }
  }

  /** uint32_2data */
  function WordBytes(word: Word32): (data: seq<Byte>)
    ensures |data| == 4
  {
    [ByteOf(word[..8]), ByteOf(word[8..16]), ByteOf(word[16..24]), ByteOf(word[24..])]
  }

  /** data2uint32 */
  function Word(data: seq<Byte>): Word32
    requires |data| == 4
  {
    AllBits(data)
  }

  lemma {:induction false} AllBitsOfFour(a: Byte, b: Byte, c: Byte, d: Byte)
    ensures AllBits([a, b, c, d]) == ByteBits(a) + ByteBits(b) + ByteBits(c) + ByteBits(d)
  {
    assert [a, b, c, d][..3] == [a, b, c] && [a, b, c][..2] == [a, b] && [a, b][..1] == [a] && [a][..0] == [];
    assert AllBits([a]) == ByteBits(a);
    assert AllBits([a, b]) == ByteBits(a) + ByteBits(b);
  }

  /** Words are sent most significant byte first. */
  lemma {:induction false} WordValue(a: Byte, b: Byte, c: Byte, d: Byte)
    ensures BitsValue(Word([a, b, c, d]))
         == 0x100_0000 * ByteValue(a) + 0x1_0000 * ByteValue(b) + 0x100 * ByteValue(c) + ByteValue(d)
  {
    assert [] + [a] == [a] && [a] + [b] == [a, b] && [a, b] + [c] == [a, b, c] && [a, b, c] + [d] == [a, b, c, d];
    BytesValueSnoc([], a);
    BytesValueSnoc([a], b);
    BytesValueSnoc([a, b], c);
    BytesValueSnoc([a, b, c], d);
  }

  lemma {:induction false} ByteRoundTrip(bits: Bits)
    requires |bits| == 8
    ensures ByteBits(ByteOf(bits)) == bits
  {
    ByteOfBits(bits);
  }

  /** Words survive the way through four bytes. */
  lemma {:induction false} WordRoundTrip(word: Word32)
    ensures Word(WordBytes(word)) == word
  {
    var w0, w1, w2, w3 := word[..8], word[8..16], word[16..24], word[24..];
    ByteRoundTrip(w0);
    ByteRoundTrip(w1);
    ByteRoundTrip(w2);
    ByteRoundTrip(w3);
    AllBitsOfFour(ByteOf(w0), ByteOf(w1), ByteOf(w2), ByteOf(w3));
    assert word == w0 + w1 + w2 + w3;
  }

  /** Four bytes survive the way through a word. */
  lemma {:induction false} BytesRoundTrip(data: seq<Byte>)
    requires |data| == 4
    ensures WordBytes(Word(data)) == data
  {
    WordRoundTrip(Word(data));
    SameBitsSameBytes(WordBytes(Word(data)), data);
  }

  // ----- soundness

  /** A packet whose checksum is right: the long one for the two update commands, the short one otherwise. */
  predicate Sound(bytes: seq<Byte>)
    requires |bytes| >= 4
  {
    if HasCrc32(CommandOf(bytes)) then Crc32Of(bytes) == Zeros(32) else Crc8Of(bytes) == 0
  }

  /** The checksum after a packet's code and data. */
  function Trailer(prefix: seq<Byte>): seq<Byte>
    requires |prefix| >= 4
  {
    if HasCrc32(CommandOf(prefix)) then WordBytes(Crc32Of(prefix)) else [Crc8Of(prefix)]
  }

  /** The shape of all builders: code, data, checksum of both. */
  function MakePacket(cmd: Command, data: seq<Byte>): seq<Byte>
    requires cmd != Unknown
  {
    Code(cmd) + data + Trailer(Code(cmd) + data)
  }

  /** Built packets carry their command and are sound. */
  lemma {:induction false} PacketIsSound(cmd: Command, data: seq<Byte>)
    requires cmd != Unknown
    ensures CommandOf(MakePacket(cmd, data)) == cmd && Sound(MakePacket(cmd, data))
  {
    CommandOfCode(cmd, data);
    SoundIffTrailer(Code(cmd) + data, Trailer(Code(cmd) + data));
  }

  /** Soundness is exact: one trailer and no other fits a packet. */
  lemma {:induction false} SoundIffTrailer(prefix: seq<Byte>, trailer: seq<Byte>)
    requires |prefix| >= 4
    requires |trailer| == if HasCrc32(CommandOf(prefix)) then 4 else 1
    ensures CommandOf(prefix + trailer) == CommandOf(prefix)
    ensures Sound(prefix + trailer) <==> trailer == Trailer(prefix)
  {
    if HasCrc32(CommandOf(prefix)) {
      Crc32Accepts(prefix, trailer);
      BytesRoundTrip(trailer);
      WordRoundTrip(Crc32Of(prefix));
    } else {
      assert trailer == [trailer[0]];
      Crc8Accepts(prefix, trailer[0]);
    }
  }

  // ----- the builders of the general commands; a CV number is two bytes

  function PingPacket(serialNumber: Word32, decoderId: Word32): seq<Byte> {
    MakePacket(Ping, WordBytes(serialNumber) + WordBytes(decoderId))
  }

  function ShortPingPacket(decoderId: Byte): seq<Byte> {
    MakePacket(Ping, [decoderId])
  }

  function SearchPacket(pos: Byte): seq<Byte> {
    MakePacket(BinaryTreeSearch, [pos])
  }

  function CvReadPacket(number: seq<Byte>, pos: Byte): seq<Byte>
    requires |number| == 2
  {
    MakePacket(CvRead, number + [pos])
  }

  /** The builder for writing writes the code for reading. */
  function CvWritePacket(number: seq<Byte>, value: Byte): seq<Byte>
    requires |number| == 2
  {
    MakePacket(CvRead, number + [value])
  }

  function BusyPacket(): seq<Byte> {
    MakePacket(Busy, [])
  }

  /** So no packet built to write a CV is one: each is the sound packet that reads the bit of that number. */
  lemma {:induction false} CvWriteBuilderReads(number: seq<Byte>, value: Byte)
    requires |number| == 2
    ensures CvWritePacket(number, value) == CvReadPacket(number, value)
    ensures CommandOf(CvWritePacket(number, value)) == CvRead && Sound(CvWritePacket(number, value))
  {
    PacketIsSound(CvRead, number + [value]);
  }

  // ----- corrupted packets

  /** Changing bytes within a window after the command, one byte wide or four, makes every sound packet unsound. */
  lemma ChangeIsNoticed(prefix: seq<Byte>, x: seq<Byte>, y: seq<Byte>, suffix: seq<Byte>)
    requires |prefix| >= 4
    requires |x| == |y| == if HasCrc32(CommandOf(prefix)) then 4 else 1
    requires Sound(prefix + x + suffix) && x != y
    ensures !Sound(prefix + y + suffix)
  {
    assert CommandOf(prefix + x + suffix) == CommandOf(prefix) == CommandOf(prefix + y + suffix);
    if Sound(prefix + y + suffix) {
      if HasCrc32(CommandOf(prefix)) {
        Crc32SeesWindowChange(prefix, x, y, suffix);
      } else {
        assert x == [x[0]] && y == [y[0]];
        Crc8SeesByteChange(prefix, x[0], y[0], suffix);
      }
    }
  }
}
