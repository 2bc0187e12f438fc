/** The receiver's invariant over every bit, and what a whole frame does to it. */
module ReceiverProofs {
  import opened Bytes
  import opened Crc
  import opened CrcProofs
  import opened Timing
  import opened Frame
  import opened Command
  import opened Receiver

  /** Both checksums ran over exactly the bytes in the end slot. */
  ghost predicate ChecksumsOfSlot(s: Rx)
    requires s.ring.Valid()
  {
    s.crc8 == Crc8Of(s.ring.End().Bytes()) && s.crc32 == Fold(Crc32Next, CRC32_INIT, s.ring.End().Bytes())
  }

  /** Waiting for a preamble: everything a packet fills is at its initial value. */
  ghost predicate PreambleInv(s: Rx)
    requires s.ring.Valid()
  {
    && s.ackreqCount == 0 && s.byte == 0 && s.ring.End().size == 0
    && s.crc8 == CRC8_INIT && s.crc32 == CRC32_INIT
    && (s.bitCount >= 2 ==> s.nack)
  }

  /** Inside a byte: the bits so far are the completed bytes, a start bit and the left-aligned partial byte. */
  ghost predicate DataInv(s: Rx, h: seq<SendBit>)
    requires s.ring.Valid()
  {
    && s.ackreqCount == 0 && s.nack && s.active
    && ChecksumsOfSlot(s)
    && s.bitCount < 8 && OpenFrom(s.byte, s.bitCount)
    && h == DataBits(s.ring.End().Bytes()) + [Zero] + FromBits(TopBits(s.byte, s.bitCount))
  }

  /** After a byte: the bits so far are the completed bytes. */
  ghost predicate EndBitInv(s: Rx, h: seq<SendBit>)
    requires s.ring.Valid()
  {
    && s.ackreqCount == 0 && s.nack && s.active
    && ChecksumsOfSlot(s)
    && s.bitCount == 0 && s.byte == 0
    && s.ring.End().size > 0
    && h == DataBits(s.ring.End().Bytes())
  }

  /** The receiver against `h`, the bits it took since (and with) the current start bit. */
  ghost predicate Inv(s: Rx, h: seq<SendBit>) {
    && s.ring.Valid() && s.ring.len <= 1
    && match s.phase
       case Preamble => PreambleInv(s) && h == []
       case Data => DataInv(s, h)
       case EndBit => EndBitInv(s, h)
       case AckReq => h == []
  }

  /** The history after one more bit: after ten ones whatever is no one is taken for a start bit; inside a packet
      everything but zeros and ones gives it up, and so does a one after a byte, which ends it. */
  ghost function NextHistory(s: Rx, h: seq<SendBit>, bit: Bit): seq<SendBit> {
    if bit == Ackreq then []
    else
      match s.phase
      case Preamble => if bit != One && s.bitCount >= 10 then [Zero] else []
      case Data => if bit == Invalid then [] else h + [bit]
      case EndBit => if bit == Zero then h + [bit] else []
      case AckReq => []
  }

  lemma PowerUpInv()
    ensures Inv(POWER_UP, [])
  {
  }

  lemma {:induction false} ResetInv(s: Rx)
    requires s.ring.Valid() && s.ring.len <= 1
    ensures Inv(AfterReset(s), [])
    ensures AfterReset(s).ring.Queue() == s.ring.Queue()
  {
    SetEndKeepsQueue(s.ring, s.ring.End().Clear());
  }

  /** With a packet queued the end slot is the other one, so filling it leaves the queue alone. */
  lemma SetEndKeepsQueue(r: Ring, p: Packet)
    requires r.Valid() && r.len <= 1 && p.Valid()
    ensures r.SetEnd(p).Queue() == r.Queue()
  {
  }

  lemma {:induction false} ShiftInPartial(s: Rx, h: seq<SendBit>, bit: bool)
    requires s.ring.Valid() && DataInv(s, h) && s.phase == Data && s.bitCount < 7
    ensures DataInv(ShiftIn(s, bit), h + [FromBool(bit)])
  {
    PutBitAppends(s.byte, s.bitCount, bit);
    FromBitsSnoc(TopBits(s.byte, s.bitCount), bit);
  }

  lemma FromBitsSnoc(bits: Bits, bit: bool)
    ensures FromBits(bits + [bit]) == FromBits(bits) + [FromBool(bit)]
  {
  }

  /** The eighth bit completes a byte, in the slot, in both checksums and in the history. */
  lemma {:induction false} ShiftInByte(s: Rx, h: seq<SendBit>, bit: bool)
    requires s.ring.Valid() && DataInv(s, h) && s.phase == Data && s.bitCount == 7
    requires s.ring.End().size < MAX_PACKET_SIZE
    ensures EndBitInv(ShiftIn(s, bit), h + [FromBool(bit)])
  {
    var byte := PutBit(s.byte, 7, bit);
    var slot := s.ring.End();
    PutBitAppends(s.byte, 7, bit);
    FromBitsSnoc(TopBits(s.byte, 7), bit);
    FoldSnoc(Crc8Next, CRC8_INIT, slot.Bytes(), byte);
    FoldSnoc(Crc32Next, CRC32_INIT, slot.Bytes(), byte);
    DataBitsSnoc(slot.Bytes(), byte);
    var t := ShiftIn(s, bit);
    assert t.ring.End().Bytes() == slot.Bytes() + [byte];
  }

  lemma DataBitsSnoc(bytes: seq<Byte>, byte: Byte)
    ensures DataBits(bytes + [byte]) == DataBits(bytes) + [Zero] + FromBits(ByteBits(byte))
  {
    assert (bytes + [byte])[..|bytes|] == bytes;
  }

  /** Queueing a packet: the slot just filled is the packet that joins the queue. */
  lemma PushBackQueues(r: Ring)
    requires r.Valid() && r.len == 0
    ensures r.PushBack().Queue() == [r.End().Bytes()] && r.Queue() == []
  {
  }

  /** Whether a received packet is queued when its end bit comes. */
  ghost predicate Queues(s: Rx, bit: Bit)
    requires s.ring.Valid()
  {
    s.phase == EndBit && bit == One && CrcClear(s) && s.ring.len == 0
  }

  /** What one bit keeps: the invariant, and a queue that grows at an accepted end bit only, by the packet just
      received. */
  ghost predicate StepKeeps(s: Rx, h: seq<SendBit>, bit: Bit)
    requires CanReceive(s, bit)
  {
    var t := ReceiveBit(s, bit);
    && Inv(t, NextHistory(s, h, bit))
    && t.ring.Queue() == s.ring.Queue() + if Queues(s, bit) then [s.ring.End().Bytes()] else []
  }

  lemma {:induction false} StepPreamble(s: Rx, h: seq<SendBit>, bit: Bit)
    requires Inv(s, h) && CanReceive(s, bit) && s.phase == Preamble && bit != Ackreq
    ensures StepKeeps(s, h, bit)
  {
    ResetInv(s);
    assert s.ring.End().Bytes() == [];
    var t := ReceiveBit(s, bit);
    if t.phase == Data {
      assert DataBits(t.ring.End().Bytes()) + [Zero] + FromBits(TopBits(t.byte, 0)) == [Zero];
      assert OpenFrom(0, 0);
    }
  }

  lemma {:induction false} StepPartial(s: Rx, h: seq<SendBit>, bit: bool)
    requires Inv(s, h) && CanReceive(s, FromBool(bit)) && s.phase == Data && s.bitCount < 7
    ensures StepKeeps(s, h, FromBool(bit))
  {
    ShiftInPartial(s, h, bit);
    assert ReceiveBit(s, FromBool(bit)) == ShiftIn(s, bit);
    assert ShiftIn(s, bit).ring == s.ring;
  }

  /** The bit that completes a byte, as one state change. */
  lemma CompletesByte(s: Rx, bit: bool)
    requires CanReceive(s, FromBool(bit)) && s.phase == Data && s.bitCount == 7
    ensures ReceiveBit(s, FromBool(bit)) == ShiftIn(s, bit).(phase := EndBit)
    ensures ReceiveBit(s, FromBool(bit)).ring == s.ring.SetEnd(s.ring.End().PushBack(PutBit(s.byte, 7, bit)))
  {
  }

  lemma {:induction false} StepByte(s: Rx, h: seq<SendBit>, bit: bool)
    requires Inv(s, h) && CanReceive(s, FromBool(bit)) && s.phase == Data && s.bitCount == 7
    ensures StepKeeps(s, h, FromBool(bit))
  {
    CompletesByte(s, bit);
    ShiftInByte(s, h, bit);
    var u := ReceiveBit(s, FromBool(bit));
    assert EndBitInv(u, h + [FromBool(bit)]);
    SetEndKeepsQueue(s.ring, s.ring.End().PushBack(PutBit(s.byte, 7, bit)));
  }

  lemma {:induction false} StepEndBit(s: Rx, h: seq<SendBit>, bit: Bit)
    requires Inv(s, h) && CanReceive(s, bit) && s.phase == EndBit && bit != Ackreq
    ensures StepKeeps(s, h, bit)
  {
    ResetInv(s);
    if bit == One && s.ring.len == 0 { PushBackQueues(s.ring); }
    if bit == Zero {
      assert FromBits(TopBits(s.byte, 0)) == [];
      assert OpenFrom(0, 0);
    }
  }

  /** Every bit keeps the invariant, in every phase. */
  lemma {:induction false} StepInv(s: Rx, h: seq<SendBit>, bit: Bit)
    requires Inv(s, h) && CanReceive(s, bit)
    ensures StepKeeps(s, h, bit)
  {
    if bit == Ackreq || s.phase == AckReq {
      ResetInv(s);
    } else if s.phase == Preamble {
      StepPreamble(s, h, bit);
    } else if s.phase == Data {
      if bit == Invalid { ResetInv(s); }
      else if s.bitCount < 7 { StepPartial(s, h, bit == One); }
      else { StepByte(s, h, bit == One); }
    } else {
      StepEndBit(s, h, bit);
    }
  }

  /** Inside a packet a data bit, and between bytes a start bit, extends the history. */
  lemma DataGoesOn(s: Rx, h: seq<SendBit>, bit: SendBit)
    requires Inv(s, h) && CanReceive(s, bit)
    requires bit == Zero || (bit == One && s.phase == Data)
    requires s.phase == Data || s.phase == EndBit
    ensures ReceiveBit(s, bit).phase == Data || ReceiveBit(s, bit).phase == EndBit
    ensures NextHistory(s, h, bit) == h + [bit]
    ensures !Queues(s, bit)
  {
    if s.phase == Data {
      assert FromBool(bit == One) == bit;
      if s.bitCount == 7 { CompletesByte(s, bit == One); } else { ExtendsByte(s, bit == One); }
    }
  }

  lemma ExtendsByte(s: Rx, bit: bool)
    requires CanReceive(s, FromBool(bit)) && s.phase == Data && s.bitCount < 7
    ensures ReceiveBit(s, FromBool(bit)).phase == Data
  {
  }

  /** The history tells how many bytes the slot holds. */
  lemma HistoryLength(s: Rx, h: seq<SendBit>)
    requires Inv(s, h)
    ensures s.phase == Data ==> |h| == 9 * s.ring.End().size + 1 + s.bitCount && s.bitCount < 8
    ensures s.phase == EndBit ==> |h| == 9 * s.ring.End().size
  {
  }

  // ----- what no bit ever changes

  ghost predicate SameSettings(s: Rx, t: Rx) {
    t.rate == s.rate && t.selected == s.selected && t.ignore == s.ignore && t.ring.front == s.ring.front
  }

  lemma ShiftInSettings(s: Rx, bit: bool)
    requires s.ring.Valid() && s.bitCount < 8
    requires s.bitCount == 7 ==> s.ring.End().size < MAX_PACKET_SIZE
    ensures SameSettings(s, ShiftIn(s, bit))
    ensures ShiftIn(s, bit).ack == s.ack && ShiftIn(s, bit).ackreqCount == s.ackreqCount
    ensures ShiftIn(s, bit).active == s.active
    ensures ShiftIn(s, bit).ring.len == s.ring.len
  {
  }

  lemma CompletePacketSettings(s: Rx)
    requires s.ring.Valid() && s.ring.len < MAX_SIZE
    ensures SameSettings(s, CompletePacket(s))
    ensures CompletePacket(s).ackreqCount == s.ackreqCount && CompletePacket(s).active == s.active
    ensures CompletePacket(s).ring == if CrcClear(s) && s.ring.len == 0 then s.ring.PushBack() else s.ring
  {
  }

  lemma DataBitSettings(s: Rx, bit: Bit)
    requires CanReceive(s, bit) && s.phase == Data && bit != Ackreq
    ensures SameSettings(s, ReceiveBit(s, bit)) && ReceiveBit(s, bit).ring.len == s.ring.len
    ensures s.ackreqCount == 0 ==> ReceiveBit(s, bit).ackreqCount == 0
  {
    if bit != Invalid { ShiftInSettings(s, bit == One); }
  }

  lemma EndBitSettings(s: Rx, bit: Bit)
    requires CanReceive(s, bit) && s.phase == EndBit && bit != Ackreq
    ensures SameSettings(s, ReceiveBit(s, bit))
    ensures ReceiveBit(s, bit).ring.len == s.ring.len + if Queues(s, bit) then 1 else 0
    ensures s.ackreqCount == 0 ==> ReceiveBit(s, bit).ackreqCount == 0
  {
    CompletePacketSettings(s);
  }

  lemma OtherBitSettings(s: Rx, bit: Bit)
    requires CanReceive(s, bit) && (s.phase == Preamble || s.phase == AckReq || bit == Ackreq)
    ensures SameSettings(s, ReceiveBit(s, bit)) && ReceiveBit(s, bit).ring.len == s.ring.len
    ensures bit != Ackreq && (s.phase == AckReq || s.ackreqCount == 0) ==> ReceiveBit(s, bit).ackreqCount == 0
    ensures bit == Ackreq && s.selected ==> ReceiveBit(s, bit).ackreqCount == s.ackreqCount + 1
  {
  }

  /** Receiving changes neither rate nor selection nor the front of the queue, and only queues into an empty ring. */
  lemma BitKeepsSettings(s: Rx, bit: Bit)
    requires CanReceive(s, bit)
    ensures SameSettings(s, ReceiveBit(s, bit))
    ensures ReceiveBit(s, bit).ring.len == s.ring.len + if Queues(s, bit) then 1 else 0
  {
    if s.phase == Preamble || s.phase == AckReq || bit == Ackreq { OtherBitSettings(s, bit); }
    else if s.phase == Data { DataBitSettings(s, bit); }
    else { EndBitSettings(s, bit); }
  }

  /** Any bit but ackreq clears the ackreq count; an ackreq bit raises it if the decoder is selected. */
  lemma {:induction false} CountAfterBit(s: Rx, h: seq<SendBit>, bit: Bit)
    requires Inv(s, h) && CanReceive(s, bit)
    ensures bit != Ackreq ==> ReceiveBit(s, bit).ackreqCount == 0
    ensures bit == Ackreq && s.selected ==> ReceiveBit(s, bit).ackreqCount == s.ackreqCount + 1
  {
    if s.phase == Preamble || s.phase == AckReq || bit == Ackreq { OtherBitSettings(s, bit); }
    else if s.phase == Data { DataBitSettings(s, bit); }
    else { EndBitSettings(s, bit); }
  }

  /** The decoder becomes active with the first preamble it receives, and stays so. */
  lemma {:induction false} ActiveSincePreamble(s: Rx, bit: Bit)
    requires CanReceive(s, bit)
    ensures ReceiveBit(s, bit).active
       <==> s.active || (s.phase == Preamble && (bit == Zero || bit == Invalid) && s.bitCount >= 10)
  {
    if s.phase == Data && bit != Ackreq {
      if bit != Invalid { ShiftInSettings(s, bit == One); }
    } else if s.phase == EndBit && bit != Ackreq {
      CompletePacketSettings(s);
    }
  }
}
