/** What the two checksums accept, and which corruptions they always catch. */
module CrcProofs {
  import opened Bytes
  import opened Crc

  // ----- folding

  lemma {:induction false} FoldConcat<S>(next: (S, Byte) -> S, crc: S, a: seq<Byte>, b: seq<Byte>)
    ensures Fold(next, crc, a + b) == Fold(next, Fold(next, crc, a), b)
  {
    if b == [] {
      assert a + b == a;
    } else {
      var front := b[..|b| - 1];
      FoldConcat(next, crc, a, front);
      assert (a + b)[..|a + b| - 1] == a + front;
    }
  }

  /** No two registers fall together under any byte. */
  ghost predicate Injective<S(!new)>(next: (S, Byte) -> S) {
    forall a, b, byte :: next(a, byte) == next(b, byte) ==> a == b
  }

  /** A difference once in the register survives every message. */
  lemma {:induction false} FoldInjective<S(!new)>(next: (S, Byte) -> S, a: S, b: S, bytes: seq<Byte>)
    requires Injective(next)
    requires Fold(next, a, bytes) == Fold(next, b, bytes)
    ensures a == b
  {
    if bytes != [] {
      var front, last := bytes[..|bytes| - 1], bytes[|bytes| - 1];
      assert next(Fold(next, a, front), last) == next(Fold(next, b, front), last);
      FoldInjective(next, a, b, front);
    }
  }

  // ----- CRC8

  lemma Crc8BitInjective(a: Byte, b: Byte)
    requires Crc8Bit(a) == Crc8Bit(b)
    ensures a == b
  {
  }

  lemma Crc8ShiftInjective(a: Byte, b: Byte)
    requires Crc8Shift(a) == Crc8Shift(b)
    ensures a == b
  {
    var a1, b1 := Crc8Bit(a), Crc8Bit(b);
    var a2, b2 := Crc8Bit(a1), Crc8Bit(b1);
    var a3, b3 := Crc8Bit(a2), Crc8Bit(b2);
    var a4, b4 := Crc8Bit(a3), Crc8Bit(b3);
    var a5, b5 := Crc8Bit(a4), Crc8Bit(b4);
    var a6, b6 := Crc8Bit(a5), Crc8Bit(b5);
    var a7, b7 := Crc8Bit(a6), Crc8Bit(b6);
    Crc8BitInjective(a7, b7);
    Crc8BitInjective(a6, b6);
    Crc8BitInjective(a5, b5);
    Crc8BitInjective(a4, b4);
    Crc8BitInjective(a3, b3);
    Crc8BitInjective(a2, b2);
    Crc8BitInjective(a1, b1);
    Crc8BitInjective(a, b);
  }

  lemma XorCancels(a: Byte, b: Byte, c: Byte)
    requires a ^ c == b ^ c || c ^ a == c ^ b
    ensures a == b
  {
  }

  lemma Crc8NextInjective()
    ensures Injective(Crc8Next)
  {
    forall a, b, byte | Crc8Next(a, byte) == Crc8Next(b, byte) ensures a == b {
      Crc8ShiftInjective(a ^ byte, b ^ byte);
      XorCancels(a, b, byte);
    }
  }

  lemma Crc8NextZero(crc: Byte, byte: Byte)
    ensures Crc8Next(crc, byte) == 0 <==> byte == crc
  {
    assert Crc8Next(crc, crc) == 0;
    if Crc8Next(crc, byte) == 0 {
      Crc8ShiftInjective(crc ^ byte, crc ^ crc);
      XorCancels(byte, crc, crc);
    }
  }

  /** A frame leaves a zero register exactly when its last byte is the checksum of the rest. */
  lemma Crc8Accepts(prefix: seq<Byte>, last: Byte)
    ensures Crc8Of(prefix + [last]) == 0 <==> last == Crc8Of(prefix)
  {
    FoldSnoc(Crc8Next, CRC8_INIT, prefix, last);
    Crc8NextZero(Crc8Of(prefix), last);
  }

  lemma Crc8NextSeesByte(crc: Byte, x: Byte, y: Byte)
    requires Crc8Next(crc, x) == Crc8Next(crc, y)
    ensures x == y
  {
    Crc8ShiftInjective(crc ^ x, crc ^ y);
    XorCancels(x, y, crc);
  }

  /** Frames that differ in one byte only end in different registers. */
  lemma Crc8SeesByteChange(prefix: seq<Byte>, x: Byte, y: Byte, suffix: seq<Byte>)
    requires Crc8Of(prefix + [x] + suffix) == Crc8Of(prefix + [y] + suffix)
    ensures x == y
  {
    var crc := Crc8Of(prefix);
    FoldConcat(Crc8Next, CRC8_INIT, prefix + [x], suffix);
    FoldConcat(Crc8Next, CRC8_INIT, prefix + [y], suffix);
    FoldSnoc(Crc8Next, CRC8_INIT, prefix, x);
    FoldSnoc(Crc8Next, CRC8_INIT, prefix, y);
    Crc8NextInjective();
    FoldInjective(Crc8Next, Crc8Next(crc, x), Crc8Next(crc, y), suffix);
    Crc8NextSeesByte(crc, x, y);
  }

  // ----- CRC32 over bits

  lemma {:induction false} Crc32BitsConcat(crc: Word32, a: Bits, b: Bits)
    ensures Crc32Bits(crc, a + b) == Crc32Bits(Crc32Bits(crc, a), b)
  {
    if b == [] {
      assert a + b == a;
    } else {
      var front := b[..|b| - 1];
      Crc32BitsConcat(crc, a, front);
      assert (a + b)[..|a + b| - 1] == a + front;
    }
  }

  /** Bytes go into the register as the string of their bits. */
  lemma {:induction false} Crc32FoldIsBits(crc: Word32, bytes: seq<Byte>)
    ensures Fold(Crc32Next, crc, bytes) == Crc32Bits(crc, AllBits(bytes))
  {
    if bytes != [] {
      var front, last := bytes[..|bytes| - 1], bytes[|bytes| - 1];
      Crc32FoldIsBits(crc, front);
      Crc32BitsConcat(crc, AllBits(front), ByteBits(last));
    }
  }

  /** The polynomial's low bit is set, so the pushed-out bit can be recovered. */
  lemma PolynomialIsOdd()
    ensures CRC32_POLYNOMIAL[31]
  {
    assert AllBits([0x04, 0xC1, 0x1D, 0xB7])[31] == ByteBits(0xB7)[7];
  }

  lemma Crc32BitInjective(a: Word32, b: Word32, bit: bool)
    requires Crc32Bit(a, bit) == Crc32Bit(b, bit)
    ensures a == b
  {
    var ra, rb := Crc32Bit(a, bit), Crc32Bit(b, bit);
    PolynomialIsOdd();
    assert ra[31] == (bit != a[0]) && rb[31] == (bit != b[0]);
    forall i | 1 <= i < 32 ensures a[i] == b[i] {
      assert ra[i - 1] == rb[i - 1];
    }
  }

  lemma {:induction false} Crc32BitsInjective(a: Word32, b: Word32, bits: Bits)
    requires Crc32Bits(a, bits) == Crc32Bits(b, bits)
    ensures a == b
  {
    if bits != [] {
      var front := bits[..|bits| - 1];
      Crc32BitInjective(Crc32Bits(a, front), Crc32Bits(b, front), bits[|bits| - 1]);
      Crc32BitsInjective(a, b, front);
    }
  }

  lemma Crc32BitLinear(a: Word32, b: Word32, x: bool, y: bool)
    ensures Crc32Bit(Xor(a, b), x != y) == Xor(Crc32Bit(a, x), Crc32Bit(b, y))
  {
  }

  lemma {:induction false} Crc32BitsLinear(a: Word32, b: Word32, x: Bits, y: Bits)
    requires |x| == |y|
    ensures Crc32Bits(Xor(a, b), Xor(x, y)) == Xor(Crc32Bits(a, x), Crc32Bits(b, y))
  {
    if x != [] {
      var n := |x| - 1;
      Crc32BitsLinear(a, b, x[..n], y[..n]);
      assert Xor(x, y)[..n] == Xor(x[..n], y[..n]);
      Crc32BitLinear(Crc32Bits(a, x[..n]), Crc32Bits(b, y[..n]), x[n], y[n]);
    }
  }

  /** Up to 32 bits fed into a clear register just line up in it. */
  lemma {:induction false} Crc32BitsFromZero(bits: Bits)
    requires |bits| <= 32
    ensures Crc32Bits(Zeros(32), bits) == Zeros(32 - |bits|) + bits
  {
    if bits != [] {
      var n := |bits| - 1;
      Crc32BitsFromZero(bits[..n]);
      assert bits == bits[..n] + [bits[n]];
      assert (Zeros(32 - n) + bits[..n])[1..] + [bits[n]] == Zeros(32 - |bits|) + bits;
    }
  }

  /** Feeding 32 bits is feeding 32 zeros and xor-ing the bits in. */
  lemma Crc32FeedWord(crc: Word32, word: Word32)
    ensures Crc32Bits(crc, word) == Xor(Crc32Bits(crc, Zeros(32)), word)
  {
    Crc32BitsLinear(crc, Zeros(32), Zeros(32), word);
    Crc32BitsFromZero(word);
    assert Xor(crc, Zeros(32)) == crc;
    assert Xor(Zeros(32), word) == word;
    assert Zeros(0) + word == word;
  }

  lemma FourZerosAreZeroBits()
    ensures AllBits(FOUR_ZEROS) == Zeros(32)
  {
    var s := FOUR_ZEROS;
    assert s[..3][..2] == [0, 0] && s[..3] == [0, 0, 0] && [0 as Byte, 0][..1] == [0];
    assert ByteBits(0) == Zeros(8);
    assert AllBits(s) == AllBits(s[..3]) + ByteBits(0);
    assert AllBits(s[..3]) == AllBits([0, 0]) + ByteBits(0);
    assert AllBits([0, 0]) == AllBits([0]) + ByteBits(0);
    assert [0 as Byte][..0] == [];
  }

  lemma Crc32ValueIsBits(crc: Word32)
    ensures Crc32Value(crc) == Crc32Bits(crc, Zeros(32))
  {
    FourZerosAreZeroBits();
    Crc32FoldIsBits(crc, FOUR_ZEROS);
  }

  /** A register reads as zero exactly when it is zero. */
  lemma Crc32ValueZero(crc: Word32)
    ensures Crc32Value(crc) == Zeros(32) <==> crc == Zeros(32)
  {
    Crc32ValueIsBits(crc);
    Crc32BitsFromZero(Zeros(32));
    assert Zeros(0) + Zeros(32) == Zeros(32);
    if Crc32Value(crc) == Zeros(32) {
      Crc32BitsInjective(crc, Zeros(32), Zeros(32));
    }
  }

  /** Acceptance is exact: after any prefix the receiver reads zero iff the trailer is the prefix's checksum. */
  lemma Crc32Accepts(prefix: seq<Byte>, trailer: seq<Byte>)
    requires |trailer| == 4
    ensures Crc32Of(prefix + trailer) == Zeros(32) <==> AllBits(trailer) == Crc32Of(prefix)
  {
    var crc := Fold(Crc32Next, CRC32_INIT, prefix);
    var word := AllBits(trailer);
    FoldConcat(Crc32Next, CRC32_INIT, prefix, trailer);
    Crc32FoldIsBits(crc, trailer);
    Crc32FeedWord(crc, word);
    Crc32ValueIsBits(crc);
    Crc32ValueZero(Crc32Bits(crc, word));
    assert Xor(Crc32Of(prefix), word) == Zeros(32) <==> word == Crc32Of(prefix) by {
      XorZero(Crc32Of(prefix), word);
    }
  }

  lemma XorZero(a: Word32, b: Word32)
    ensures Xor(a, b) == Zeros(32) <==> a == b
  {
    if Xor(a, b) == Zeros(32) {
      forall i | 0 <= i < 32 ensures a[i] == b[i] {
        assert !Xor(a, b)[i];
      }
    }
  }

  /** No change confined to a window of four bytes leaves the final reading as it was. */
  lemma Crc32SeesWindowChange(prefix: seq<Byte>, x: seq<Byte>, y: seq<Byte>, suffix: seq<Byte>)
    requires |x| == |y| == 4
    requires Crc32Of(prefix + x + suffix) == Crc32Of(prefix + y + suffix)
    ensures x == y
  {
    var crc := Fold(Crc32Next, CRC32_INIT, prefix);
    var tail := AllBits(suffix + FOUR_ZEROS);
    Crc32OfWindow(prefix, x, suffix);
    Crc32OfWindow(prefix, y, suffix);
    Crc32BitsInjective(Crc32Bits(crc, AllBits(x)), Crc32Bits(crc, AllBits(y)), tail);
    Crc32FeedWord(crc, AllBits(x));
    Crc32FeedWord(crc, AllBits(y));
    var z := Crc32Bits(crc, Zeros(32));
    forall i | 0 <= i < 32 ensures AllBits(x)[i] == AllBits(y)[i] {
      assert Xor(z, AllBits(x))[i] == Xor(z, AllBits(y))[i];
    }
    SameBitsSameBytes(x, y);
  }

  lemma Crc32OfWindow(prefix: seq<Byte>, x: seq<Byte>, suffix: seq<Byte>)
    requires |x| == 4
    ensures Crc32Of(prefix + x + suffix)
         == Crc32Bits(Crc32Bits(Fold(Crc32Next, CRC32_INIT, prefix), AllBits(x)), AllBits(suffix + FOUR_ZEROS))
  {
    var crc := Fold(Crc32Next, CRC32_INIT, prefix);
    FoldConcat(Crc32Next, CRC32_INIT, prefix + x, suffix);
    FoldConcat(Crc32Next, CRC32_INIT, prefix, x);
    Crc32FoldIsBits(crc, x);
    FoldConcat(Crc32Next, Crc32Bits(crc, AllBits(x)), suffix, FOUR_ZEROS);
    Crc32FoldIsBits(Crc32Bits(crc, AllBits(x)), suffix + FOUR_ZEROS);
  }
}
