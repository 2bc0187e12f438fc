/** What the receiver reads back from packets of the general commands. */
module ReadBack {
  import opened Bytes
  import opened Crc
  import opened CrcProofs
  import opened Frame
  import opened Command
  import opened Packets
  import opened Receiver

  /** A buffer holds a packet's data after the command code. */
  ghost predicate Holds(b: seq<Byte>, data: seq<Byte>) {
    |b| == MAX_PACKET_SIZE && 4 + |data| <= MAX_PACKET_SIZE && b[4..4 + |data|] == data
  }

  lemma {:induction false} BuiltPacketHolds(packet: Packet, cmd: Command, data: seq<Byte>)
    requires packet.Valid() && cmd != Unknown && packet.Bytes() == MakePacket(cmd, data)
    ensures packet.Code() == cmd && Holds(packet.buffer, data)
    ensures packet.size == 4 + |data| + if HasCrc32(cmd) then 4 else 1
  {
    CommandOfCode(cmd, data);
    PacketIsSound(cmd, data);
    var n := |data|;
    assert packet.size == 4 + n + if HasCrc32(cmd) then 4 else 1;
    assert CommandOf(packet.buffer) == CommandOf(packet.Bytes());
    assert packet.Bytes()[4..4 + n] == data;
    assert packet.buffer[4..4 + n] == packet.Bytes()[4..4 + n];
  }

  lemma {:induction false} FieldAt(b: seq<Byte>, data: seq<Byte>, from: nat, to: nat)
    requires Holds(b, data) && from <= to <= |data|
    ensures b[4 + from..4 + to] == data[from..to]
  {
    forall i | 0 <= i < to - from ensures b[4 + from..4 + to][i] == data[from..to][i] {
      assert b[4..4 + |data|][from + i] == data[from + i];
    }
  }

  /** Zero stands for any number; every other number is written as it is read. */
  lemma {:induction false} NumberWritten(number: Word32, own: seq<Byte>)
    requires |own| == 4
    ensures WordBytes(number) == NO_NUMBER <==> number == Zeros(32)
    ensures WordBytes(number) == own <==> number == Word(own)
  {
    WordRoundTrip(number);
    SameNumber(WordBytes(number), own);
  }

  /** Bytes are the same iff the numbers they stand for are. */
  lemma {:induction false} SameNumber(data: seq<Byte>, own: seq<Byte>)
    requires |data| == |own| == 4
    ensures data == NO_NUMBER <==> Word(data) == Zeros(32)
    ensures data == own <==> Word(data) == Word(own)
  {
    BytesRoundTrip(data);
    BytesRoundTrip(own);
    BytesRoundTrip(NO_NUMBER);
    FourZerosAreZeroBits();
  }

  /** Which fields a ping is taken to have, by its size alone: the top byte of a decoder id below 9 bytes, a serial
      number from there on, and a whole decoder id from 12 bytes on; zeros ask for anyone. */
  lemma {:induction false} PingBySize(cfg: Config, packet: Packet)
    requires cfg.Valid() && packet.Valid()
    ensures var b := packet.buffer;
            PingSelects(cfg, packet)
            <==> if packet.size <= 8 then b[4] == 0 || b[4] == cfg.decoderId[0]
                 else
                   && (Word(b[4..8]) == Zeros(32) || Word(b[4..8]) == Word(cfg.serialNumber))
                   && (packet.size <= 11 || Word(b[8..12]) == Zeros(32) || Word(b[8..12]) == Word(cfg.decoderId))
  {
    var b := packet.buffer;
    if packet.size <= 8 {
      assert [b[4]] + cfg.decoderId[1..] == cfg.decoderId <==> b[4] == cfg.decoderId[0];
      assert b[4] != 0 ==> ([b[4]] + cfg.decoderId[1..])[0] != NO_NUMBER[0];
    } else {
      SameNumber(b[4..8], cfg.serialNumber);
      SameNumber(b[8..12], cfg.decoderId);
    }
  }

  /** A ping built with both numbers selects exactly the decoders whose numbers match, zero matching all. */
  lemma {:induction false} PingRoundTrip(cfg: Config, packet: Packet, serialNumber: Word32, decoderId: Word32)
    requires cfg.Valid() && packet.Valid() && packet.Bytes() == PingPacket(serialNumber, decoderId)
    ensures packet.Code() == Ping
    ensures PingSelects(cfg, packet)
       <==> && (serialNumber == Zeros(32) || serialNumber == Word(cfg.serialNumber))
            && (decoderId == Zeros(32) || decoderId == Word(cfg.decoderId))
  {
    var data := WordBytes(serialNumber) + WordBytes(decoderId);
    BuiltPacketHolds(packet, Ping, data);
    assert data[0..4] == WordBytes(serialNumber) && data[4..8] == WordBytes(decoderId);
    FieldAt(packet.buffer, data, 0, 4);
    FieldAt(packet.buffer, data, 4, 8);
    NumberWritten(serialNumber, cfg.serialNumber);
    NumberWritten(decoderId, cfg.decoderId);
  }

  /** The short form selects by the top byte of the decoder id, zero matching all. */
  lemma {:induction false} ShortPingRoundTrip(cfg: Config, packet: Packet, decoderId: Byte)
    requires cfg.Valid() && packet.Valid() && packet.Bytes() == ShortPingPacket(decoderId)
    ensures packet.Code() == Ping
    ensures PingSelects(cfg, packet) <==> decoderId == 0 || decoderId == cfg.decoderId[0]
  {
    BuiltPacketHolds(packet, Ping, [decoderId]);
    FieldAt(packet.buffer, [decoderId], 0, 1);
    assert packet.buffer[4..5][0] == decoderId;
    assert [decoderId] + cfg.decoderId[1..] == cfg.decoderId <==> decoderId == cfg.decoderId[0];
    assert decoderId != 0 ==> ([decoderId] + cfg.decoderId[1..])[0] != NO_NUMBER[0];
  }

  /** Search positions and Busy queries are read as they were built. */
  lemma {:induction false} SearchRoundTrip(packet: Packet, pos: Byte)
    requires packet.Valid() && packet.Bytes() == SearchPacket(pos)
    ensures packet.Code() == BinaryTreeSearch && packet.Parameter() == ByteValue(pos)
  {
    BuiltPacketHolds(packet, BinaryTreeSearch, [pos]);
    FieldAt(packet.buffer, [pos], 0, 1);
    assert packet.buffer[4..5][0] == pos;
  }

  lemma {:induction false} BusyRoundTrip(packet: Packet)
    requires packet.Valid() && packet.Bytes() == BusyPacket()
    ensures packet.Code() == Busy && packet.size == 5
  {
    BuiltPacketHolds(packet, Busy, []);
  }
}
