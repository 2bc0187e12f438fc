/** The shape of a data packet on the wire: preamble, start bit and eight bits per byte, end bit, ackreq bits. */
module Frame {
  import opened Bytes
  import opened Timing

  const MAX_PACKET_SIZE: nat := 268
  const RX_MIN_PREAMBLE_BITS: nat := 10
  const TX_MIN_PREAMBLE_BITS: nat := 14
  const TX_MAX_PREAMBLE_BITS: nat := 30
  const TX_MIN_ACKREQ_BITS: nat := 10
  const TX_MAX_ACKREQ_BITS: nat := 30

  type SendBit = b: Bit | b != Invalid witness Zero

  function FromBool(bit: bool): SendBit {
    if bit then One else Zero
  }

  function FromBits(bits: Bits): (r: seq<SendBit>)
    ensures |r| == |bits|
  {
    seq(|bits|, i requires 0 <= i < |bits| => FromBool(bits[i]))
  }

  function Repeat(bit: SendBit, n: nat): (r: seq<SendBit>)
    ensures |r| == n
  {
    seq(n, _ => bit)
  }

  /** A zero start bit before every byte. */
  function DataBits(bytes: seq<Byte>): (r: seq<SendBit>)
    ensures |r| == 9 * |bytes|
  {
    if bytes == [] then []
    else DataBits(bytes[..|bytes| - 1]) + [Zero] + FromBits(ByteBits(bytes[|bytes| - 1]))
  }

  /** Everything but the ackreq bits; without bytes there is no end bit either. */
  function PacketBits(numPreamble: nat, bytes: seq<Byte>): seq<SendBit> {
    Repeat(One, numPreamble) + DataBits(bytes) + if bytes == [] then [] else [One]
  }

  function FrameBits(numPreamble: nat, bytes: seq<Byte>, numAckreq: nat): seq<SendBit> {
    PacketBits(numPreamble, bytes) + Repeat(Ackreq, numAckreq)
  }

  function Durations(bits: seq<SendBit>, rate: Rate): (r: seq<nat>)
    ensures |r| == |bits|
  {
    seq(|bits|, i requires 0 <= i < |bits| => Nominal(bits[i], rate))
  }

  lemma DurationsConcat(a: seq<SendBit>, b: seq<SendBit>, rate: Rate)
    ensures Durations(a + b, rate) == Durations(a, rate) + Durations(b, rate)
  {
  }

  /** Random access into the data phase: nine bits a byte, the first of them the start bit. */
  lemma {:induction false} DataBitsAt(bytes: seq<Byte>, k: nat)
    requires k < 9 * |bytes|
    ensures DataBits(bytes)[k] == if k % 9 == 0 then Zero else FromBool(BitOf(bytes[k / 9], k % 9 - 1))
  {
    var n := |bytes| - 1;
    if k < 9 * n {
      DataBitsAt(bytes[..n], k);
    }
  }

  lemma {:induction false} DataBitsPrefix(bytes: seq<Byte>, n: nat)
    requires n <= |bytes|
    ensures DataBits(bytes)[..9 * n] == DataBits(bytes[..n])
  {
    if n < |bytes| {
      var front := bytes[..|bytes| - 1];
      DataBitsPrefix(front, n);
      assert front[..n] == bytes[..n];
      assert DataBits(bytes)[..9 * n] == DataBits(front)[..9 * n];
    } else {
      assert bytes[..n] == bytes;
    }
  }

  lemma {:induction false} FromBitsInjective(a: Bits, b: Bits)
    requires FromBits(a) == FromBits(b)
    ensures a == b
  {
    assert |a| == |FromBits(a)| == |FromBits(b)| == |b|;
    forall i | 0 <= i < |a| ensures a[i] == b[i] {
      assert FromBits(a)[i] == FromBits(b)[i];
    }
  }

  /** The data phase determines its bytes. */
  lemma {:induction false} DataBitsInjective(a: seq<Byte>, b: seq<Byte>)
    requires DataBits(a) == DataBits(b)
    ensures a == b
  {
    assert |a| == |b|;
    if a != [] {
      var n := |a| - 1;
      DataBitsPrefix(a, n);
      DataBitsPrefix(b, n);
      DataBitsInjective(a[..n], b[..n]);
      assert DataBits(a)[9 * n + 1..] == FromBits(ByteBits(a[n]));
      assert DataBits(b)[9 * n + 1..] == FromBits(ByteBits(b[n]));
      FromBitsInjective(ByteBits(a[n]), ByteBits(b[n]));
      SameBitsSameByte(a[n], b[n]);
      assert a == a[..n] + [a[n]] && b == b[..n] + [b[n]];
    }
  }
}
