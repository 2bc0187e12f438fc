/** The two software encoders of the transmitter: eager into a buffer, and random access on the fly. */
module Timings {
  import opened Bytes
  import opened Timing
  import opened Frame

  /** Size of the duration buffer: longest preamble, longest data phase, end bit. */
  const CAPACITY: nat := TX_MAX_PREAMBLE_BITS + MAX_PACKET_SIZE * 9 + 1

  function FrameLength(numPreamble: nat, numBytes: nat, numAckreq: nat): nat {
    numPreamble + 9 * numBytes + (if numBytes == 0 then 0 else 1) + numAckreq
  }

  /** The buffer takes every packet exactly when preamble and ackreq bits share the room of the longest preamble. */
  lemma CapacityFitsExactly(numPreamble: nat, numAckreq: nat)
    ensures (forall bytes: seq<Byte> :: |bytes| <= MAX_PACKET_SIZE ==>
               |FrameBits(numPreamble, bytes, numAckreq)| <= CAPACITY)
       <==> numPreamble + numAckreq <= 30
    ensures CAPACITY == 2443
  {
    var longest: seq<Byte> := seq(MAX_PACKET_SIZE, _ => 0 as Byte);
    assert |FrameBits(numPreamble, longest, numAckreq)| == FrameLength(numPreamble, MAX_PACKET_SIZE, numAckreq);
  }

  /** fill_n: one duration `n` times from the moving position on. */
  method FillN(buffer: array<nat>, first: nat, n: nat, bit: SendBit, rate: Rate) returns (last: nat)
    requires first + n <= buffer.Length
    modifies buffer
    ensures last == first + n
    ensures buffer[..last] == old(buffer[..first]) + Durations(Repeat(bit, n), rate)
  {
    last := first + n;
    for i := first to last
      invariant buffer[..first] == old(buffer[..first])
      invariant forall k :: first <= k < i ==> buffer[k] == Nominal(bit, rate)
    {
      buffer[i] := Nominal(bit, rate);
    }
    assert buffer[first..last] == Durations(Repeat(bit, n), rate);
    assert buffer[..last] == buffer[..first] + buffer[first..last];
  }

  /** A start bit and the eight bits of a byte, most significant first. */
  method FillByte(buffer: array<nat>, first: nat, byte: Byte, rate: Rate) returns (last: nat)
    requires first + 9 <= buffer.Length
    modifies buffer
    ensures last == first + 9
    ensures buffer[..last] == old(buffer[..first]) + Durations([Zero] + FromBits(ByteBits(byte)), rate)
  {
    ghost var bits := [Zero] + FromBits(ByteBits(byte));
    buffer[first] := TimingOf(rate).zero;
    last := first + 1;
    var i := 8;
    while i > 0
      invariant 0 <= i <= 8
      invariant last == first + 9 - i
      invariant buffer[..first] == old(buffer[..first])
      invariant forall k :: 0 <= k < 9 - i ==> buffer[first + k] == Nominal(bits[k], rate)
    {
      i := i - 1;
      buffer[last] := if BitOf(byte, 7 - i) then TimingOf(rate).one else TimingOf(rate).zero;
      last := last + 1;
    }
    assert buffer[first..last] == Durations(bits, rate);
    assert buffer[..last] == buffer[..first] + buffer[first..last];
  }

  /** bytes2timings: fills the buffer front to back, then cuts it to size. */
  method Bytes2Timings(bytes: seq<Byte>, numPreamble: nat, numAckreq: nat, rate: Rate) returns (result: seq<nat>)
    requires FrameLength(numPreamble, |bytes|, numAckreq) <= CAPACITY
    ensures result == Durations(FrameBits(numPreamble, bytes, numAckreq), rate)
  {
    var buffer := new nat[CAPACITY](_ => 0);
    ghost var head := Repeat(One, numPreamble);
    var first := FillN(buffer, 0, numPreamble, One, rate);
    assert buffer[..first] == Durations(head, rate);
    assert head + DataBits(bytes[..0]) == head;

    for n := 0 to |bytes|
      invariant first == numPreamble + 9 * n
      invariant buffer[..first] == Durations(head + DataBits(bytes[..n]), rate)
    {
      ghost var bits := [Zero] + FromBits(ByteBits(bytes[n]));
      first := FillByte(buffer, first, bytes[n], rate);
      DurationsConcat(head + DataBits(bytes[..n]), bits, rate);
      assert bytes[..n + 1][..n] == bytes[..n];
      assert head + DataBits(bytes[..n + 1]) == head + DataBits(bytes[..n]) + bits;
    }
    assert bytes[..|bytes|] == bytes;

    ghost var data := head + DataBits(bytes);
    if |bytes| != 0 { first := FillN(buffer, first, 1, One, rate); }
    DurationsConcat(data, Repeat(One, 1), rate);
    assert data + Repeat(One, 1) == data + [One];
    assert data + [] == data;
    first := FillN(buffer, first, numAckreq, Ackreq, rate);
    DurationsConcat(PacketBits(numPreamble, bytes), Repeat(Ackreq, numAckreq), rate);
    result := buffer[..first];
  }

  /** Iterator over the durations of a packet that computes each one from its index. */
  class TimingsAdapter {
    const packet: seq<Byte>
    const numPreamble: nat
    const rate: Rate
    const maxCount: nat
    var count: nat

    constructor (bytes: seq<Byte>, numPreamble: nat, rate: Rate)
      ensures Valid() && count == 0
      ensures packet == bytes && this.numPreamble == numPreamble && this.rate == rate && maxCount != 0
    {
      packet, this.numPreamble, this.rate := bytes, numPreamble, rate;
      maxCount := numPreamble + |bytes| * 9 + 1;
      count := 0;
    }

    /** The default-constructed iterator is at its end already. */
    constructor Empty()
      ensures Valid() && count == 0 && Bits() == []
    {
      packet, numPreamble, rate, maxCount, count := [], TX_MIN_PREAMBLE_BITS, FALLBACK, 0, 0;
    }

    ghost predicate Valid() {
      maxCount == 0 || maxCount == numPreamble + 9 * |packet| + 1
    }

    /** What the iterator runs through: without bytes it still adds an end bit the eager encoder omits. */
    ghost function Bits(): seq<SendBit> {
      if maxCount == 0 then [] else AdapterBits(numPreamble, packet)
    }

    method AtEnd() returns (end: bool)
      requires Valid()
      ensures end <==> count >= |Bits()|
    {
      end := count >= maxCount;
    }

    method Next()
      modifies this
      ensures count == old(count) + 1
    {
      count := count + 1;
    }

    method Deref() returns (duration: nat)
      requires Valid() && maxCount != 0
      ensures duration == if count < |Bits()| then Nominal(Bits()[count], rate) else TimingOf(rate).one
    {
      if count < numPreamble { return TimingOf(rate).one; }
      var i := count - numPreamble;
      var byteIndex := i / 9;
      if byteIndex >= |packet| { return TimingOf(rate).one; }
      var bitIndex := i % 9;
      DataBitsAt(packet, i);
      if bitIndex == 0 { return TimingOf(rate).zero; }
      duration := if BitOf(packet[byteIndex], bitIndex - 1) then TimingOf(rate).one else TimingOf(rate).zero;
    }
  }

  function AdapterBits(numPreamble: nat, packet: seq<Byte>): seq<SendBit> {
    Repeat(One, numPreamble) + DataBits(packet) + [One]
  }

  /** Both encoders yield the same bits for every packet but the empty one, where the iterator is one bit longer. */
  lemma EncodersAgreeExactly(numPreamble: nat, packet: seq<Byte>)
    ensures AdapterBits(numPreamble, packet) == PacketBits(numPreamble, packet) <==> packet != []
  {
    assert |AdapterBits(numPreamble, packet)| == numPreamble + 9 * |packet| + 1;
    assert packet == [] ==> |PacketBits(numPreamble, packet)| == numPreamble;
  }
}
