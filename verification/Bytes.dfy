/** Bytes, their bits in transmission order, and machine words seen as their bits. */
module Bytes {
  type Byte = bv8

  /** The bits of a machine word, most significant first. */
  type Bits = seq<bool>

  type Word32 = w: Bits | |w| == 32 witness seq(32, _ => false)

  datatype Option<+T> = None | Some(value: T)

  /** The mask `1 << (7 - i)`: bit 0 is the one sent first, the most significant. */
  function BitMask(i: nat): Byte
    requires i < 8
  {
    match i
    case 0 => 0x80
    case 1 => 0x40
    case 2 => 0x20
    case 3 => 0x10
    case 4 => 0x08
    case 5 => 0x04
    case 6 => 0x02
    case _ => 0x01
  }

  predicate BitOf(b: Byte, i: nat)
    requires i < 8
  {
    b & BitMask(i) != 0
  }

  /** The `8 - n` low bits of a byte: those still open after `n` bits came in. */
  function LowMask(n: nat): Byte
    requires n <= 8
  {
    match n
    case 0 => 0xFF
    case 1 => 0x7F
    case 2 => 0x3F
    case 3 => 0x1F
    case 4 => 0x0F
    case 5 => 0x07
    case 6 => 0x03
    case 7 => 0x01
    case _ => 0x00
  }

  function ByteValue(b: Byte): nat {
    b as int
  }

  /** The first `n` bits of a byte. */
  function TopBits(b: Byte, n: nat): (r: Bits)
    requires n <= 8
    ensures |r| == n
  {
    seq(n, i requires 0 <= i < n => BitOf(b, i))
  }

  function ByteBits(b: Byte): (r: Bits)
    ensures |r| == 8
  {
    TopBits(b, 8)
  }

  /** All bits of a byte sequence, first byte first. */
  function AllBits(bytes: seq<Byte>): (r: Bits)
    ensures |r| == 8 * |bytes|
  {
    if bytes == [] then [] else AllBits(bytes[..|bytes| - 1]) + ByteBits(bytes[|bytes| - 1])
  }

  lemma {:induction false} SameBitsSameByte(a: Byte, b: Byte)
    requires ByteBits(a) == ByteBits(b)
    ensures a == b
  {
    assert ByteBits(a)[0] == ByteBits(b)[0] && ByteBits(a)[1] == ByteBits(b)[1];
    assert ByteBits(a)[2] == ByteBits(b)[2] && ByteBits(a)[3] == ByteBits(b)[3];
    assert ByteBits(a)[4] == ByteBits(b)[4] && ByteBits(a)[5] == ByteBits(b)[5];
    assert ByteBits(a)[6] == ByteBits(b)[6] && ByteBits(a)[7] == ByteBits(b)[7];
  }

  /** Bytes are read back from their bits. */
  lemma {:induction false} SameBitsSameBytes(a: seq<Byte>, b: seq<Byte>)
    requires AllBits(a) == AllBits(b)
    ensures a == b
  {
    assert |a| == |b|;
    if a != [] {
      var n := |a| - 1;
      assert AllBits(a)[..8 * n] == AllBits(a[..n]) && AllBits(b)[..8 * n] == AllBits(b[..n]);
      assert AllBits(a)[8 * n..] == ByteBits(a[n]) && AllBits(b)[8 * n..] == ByteBits(b[n]);
      SameBitsSameBytes(a[..n], b[..n]);
      SameBitsSameByte(a[n], b[n]);
      assert a == a[..n] + [a[n]] && b == b[..n] + [b[n]];
    }
  }

  /** No bit from `n` on is set yet. */
  predicate OpenFrom(b: Byte, n: nat)
    requires n <= 8
  {
    b & LowMask(n) == 0
  }

  /** `b |= bit << (7 - n)` */
  function PutBit(b: Byte, n: nat, bit: bool): Byte
    requires n < 8
  {
    if bit then b | BitMask(n) else b
  }

  /** Or-ing bit `n` into a byte whose low bits are still open appends that bit. */
  lemma {:induction false} PutBitAppends(b: Byte, n: nat, bit: bool)
    requires n < 8 && OpenFrom(b, n)
    ensures OpenFrom(PutBit(b, n, bit), n + 1)
    ensures TopBits(PutBit(b, n, bit), n + 1) == TopBits(b, n) + [bit]
  {
    PutBitAt(b, n, bit);
    assert forall i :: 0 <= i < n ==> BitOf(PutBit(b, n, bit), i) == BitOf(b, i);
  }

  lemma {:induction false} PutBitAt(b: Byte, n: nat, bit: bool)
    requires n < 8 && OpenFrom(b, n)
    ensures OpenFrom(PutBit(b, n, bit), n + 1)
    ensures BitOf(PutBit(b, n, bit), n) == bit
    ensures forall i :: 0 <= i < n ==> BitOf(PutBit(b, n, bit), i) == BitOf(b, i)
  {
    match n {
      case 0 => case 1 => case 2 => case 3 => case 4 => case 5 => case 6 => case 7 =>
    }
  }

  function Zeros(n: nat): (r: Bits)
    ensures |r| == n
  {
    seq(n, _ => false)
  }

  function Ones(n: nat): (r: Bits)
    ensures |r| == n
  {
    seq(n, _ => true)
  }

  function Xor(a: Bits, b: Bits): (r: Bits)
    requires |a| == |b|
    ensures |r| == |a|
  {
    seq(|a|, i requires 0 <= i < |a| => a[i] != b[i])
  }

  function Power2(n: nat): (p: nat)
    ensures p > 0
  {
    if n == 0 then 1 else 2 * Power2(n - 1)
  }

  /** The number a word stands for. */
  function BitsValue(bits: Bits): (n: nat)
    ensures n < Power2(|bits|)
  {
    if bits == [] then 0
    else 2 * BitsValue(bits[..|bits| - 1]) + if bits[|bits| - 1] then 1 else 0
  }

  /** Bit `i` of a number, bit 0 being worth one. */
  predicate BitOfNumber(n: nat, i: nat) {
    if i == 0 then n % 2 == 1 else BitOfNumber(n / 2, i - 1)
  }

  /** The bits of a word are those of the number it stands for. */
  lemma {:induction false} BitsOfValue(bits: Bits, i: nat)
    requires i < |bits|
    ensures BitOfNumber(BitsValue(bits), i) == bits[|bits| - 1 - i]
  {
    if i > 0 { BitsOfValue(bits[..|bits| - 1], i - 1); }
  }

  lemma {:induction false} AllBitsConcat(a: seq<Byte>, b: seq<Byte>)
    ensures AllBits(a + b) == AllBits(a) + AllBits(b)
  {
    if b == [] {
      assert a + b == a;
    } else {
      var front := b[..|b| - 1];
      AllBitsConcat(a, front);
      assert (a + b)[..|a + b| - 1] == a + front;
    }
  }

  lemma DoubledByte(b: Byte)
    requires b < 128
    ensures ByteValue(b << 1) == 2 * ByteValue(b) && ByteValue((b << 1) | 1) == 2 * ByteValue(b) + 1
  {
  }

  lemma SmallByte(b: Byte)
    requires ByteValue(b) < 128
    ensures b < 128
  {
  }

  /** The byte that stands for a number. */
  function ByteAt(n: nat): (b: Byte)
    requires n < 256
    ensures ByteValue(b) == n
  {
    if n == 0 then 0
    else
      var half := ByteAt(n / 2);
      SmallByte(half);
      DoubledByte(half);
      if n % 2 == 0 then half << 1 else (half << 1) | 1
  }

  /** A byte without its low bit is half of it. */
  lemma HalvedByte(b: Byte)
    ensures ByteValue(b) == 2 * ByteValue(b >> 1) + if b & 1 != 0 then 1 else 0
  {
  }

  /** The first `n` bits of a byte, moved down. */
  function ShiftedDown(b: Byte, n: nat): Byte
    requires n <= 8
  {
    match n
    case 0 => b >> 8
    case 1 => b >> 7
    case 2 => b >> 6
    case 3 => b >> 5
    case 4 => b >> 4
    case 5 => b >> 3
    case 6 => b >> 2
    case 7 => b >> 1
    case _ => b
  }

  lemma ShiftedDownNext(b: Byte, n: nat)
    requires n < 8
    ensures ShiftedDown(b, n + 1) >> 1 == ShiftedDown(b, n)
    ensures (ShiftedDown(b, n + 1) & 1 != 0) == BitOf(b, n)
  {
    match n {
      case 0 => case 1 => case 2 => case 3 => case 4 => case 5 => case 6 => case 7 =>
    }
  }

  lemma {:induction false} TopBitsValue(b: Byte, n: nat)
    requires n <= 8
    ensures BitsValue(TopBits(b, n)) == ByteValue(ShiftedDown(b, n))
  {
    if n == 0 {
      assert b >> 8 == 0;
    } else {
      TopBitsValue(b, n - 1);
      ShiftedDownNext(b, n - 1);
      HalvedByte(ShiftedDown(b, n));
      assert TopBits(b, n)[..n - 1] == TopBits(b, n - 1);
    }
  }

  /** One more byte makes a number 256 times as great and adds its own. */
  lemma {:induction false} BytesValueSnoc(bytes: seq<Byte>, byte: Byte)
    ensures BitsValue(AllBits(bytes + [byte])) == 256 * BitsValue(AllBits(bytes)) + ByteValue(byte)
  {
    assert (bytes + [byte])[..|bytes|] == bytes;
    TopBitsValue(byte, 8);
    MoreBits(AllBits(bytes), ByteBits(byte), 8);
    assert ByteBits(byte)[..8] == ByteBits(byte);
    assert Power2(8) == 256;
  }

  lemma DoubledProduct(p: nat, v: nat)
    ensures 2 * p * v == 2 * (p * v)
  {
  }

  lemma {:induction false} MoreBits(a: Bits, b: Bits, n: nat)
    requires n <= |b|
    ensures BitsValue(a + b[..n]) == Power2(n) * BitsValue(a) + BitsValue(b[..n])
  {
    if n == 0 {
      assert a + b[..0] == a;
    } else {
      var front := b[..n - 1];
      assert b[..n] == front + [b[n - 1]];
      assert a + b[..n] == (a + front) + [b[n - 1]];
      ValueSnoc(a + front, b[n - 1]);
      ValueSnoc(front, b[n - 1]);
      MoreBits(a, b, n - 1);
      DoubledProduct(Power2(n - 1), BitsValue(a));
    }
  }

  lemma ValueSnoc(bits: Bits, bit: bool)
    ensures BitsValue(bits + [bit]) == 2 * BitsValue(bits) + if bit then 1 else 0
  {
    assert (bits + [bit])[..|bits|] == bits;
  }
}
