/** The acknowledgement phase: which current pulses a decoder gives, and that both sides count alike. */
module Acknowledge {
  import opened Bytes
  import opened Timing
  import opened Frame
  import opened Command
  import opened Packets
  import opened Receiver
  import opened ReceiverProofs
  import opened FrameProofs

  // ----- the pulses of one phase

  ghost predicate CanAck(s: Rx) {
    CanReceive(s, Ackreq)
  }

  /** The receiver after `m` ackreq bits. */
  ghost function AfterAckreqs(s: Rx, m: nat): (t: Rx)
    requires CanAck(s) && s.selected
    ensures CanAck(t) && t.selected
  {
    if m == 0 then s else ReceiveBit(AfterAckreqs(s, m - 1), Ackreq)
  }

  /** The pulse given while the `i`-th of them (counted from 0) comes in. */
  ghost function PulseAt(s: Rx, i: nat): Channel
    requires CanAck(s) && s.selected
  {
    PulseChannel(AfterAckreqs(s, i), Ackreq)
  }

  lemma {:induction false} AckreqsOnlyCount(s: Rx, m: nat)
    requires CanAck(s) && s.selected
    ensures var t := AfterAckreqs(s, m);
            t.ackreqCount == s.ackreqCount + m && t.nack == s.nack && t.ack == s.ack && t.ring == s.ring
  {
    if m > 0 { AckreqsOnlyCount(s, m - 1); }
  }

  /** Bits 2 to 4 of the phase as the receiver counts it carry the nack, bits 6 to 8 the ack; all others stay silent. */
  lemma {:induction false} PulsePattern(s: Rx, i: nat)
    requires CanAck(s) && s.selected
    ensures var count := s.ackreqCount + i + 1;
            PulseAt(s, i) == if 2 <= count <= 4 && s.nack then InChannel1
                             else if 6 <= count <= 8 && s.ack then InChannel2
                             else Silent
  {
    AckreqsOnlyCount(s, i);
  }

  /** A pulse lasts as long as the timing of its ackreq bit says: 100 microseconds for a fallback one and at the default
      rate, 80 at slow, 40 at medium and fast speed. */
  lemma PulseLength(s: Rx, time: nat)
    ensures PulsesOf(s, time) != [] <==> PulseChannel(s, Time2Bit(time, s.rate)) != Silent
    ensures PulsesOf(s, time) != [] ==>
              PulsesOf(s, time) == [if TakenFor(time, Ackreq, FALLBACK) then 100
                                    else match s.rate
                                         case 0 => 100 case 1 => 40 case 2 => 40 case 3 => 80 case _ => 100]
  {
    UnderstoodWithinTolerance(time, Ackreq, s.rate);
    WindowIsTolerance(time, Ackreq, FALLBACK);
    match s.rate { case 0 => case 1 => case 2 => case 3 => case _ => }
  }

  // ----- complete and cut frames

  /** The bits `k` up to `j` of a frame. */
  ghost function FrameRun(s: Rx, h: seq<SendBit>, n: nat, bytes: seq<Byte>, k: nat, j: nat): (t: (Rx, seq<SendBit>))
    requires At(s, h, n, bytes, k) && k <= j <= n + 9 * |bytes|
    requires n >= HEARD_PREAMBLE_BITS && |bytes| <= MAX_PACKET_SIZE
    ensures At(t.0, t.1, n, bytes, j)
    decreases j - k
  {
    if k == j then (s, h)
    else
      FrameGoesOn(s, h, n, bytes, k);
      var bit := UpToEndBit(n, bytes)[k];
      FrameRun(ReceiveBit(s, bit), NextHistory(s, h, bit), n, bytes, k + 1, j)
  }

  /** Short of its end bit a frame changes neither queue nor selection, and its first bit withdraws any old ack. */
  lemma {:induction false} FrameRunQuiet(s: Rx, h: seq<SendBit>, n: nat, bytes: seq<Byte>, k: nat, j: nat)
    requires At(s, h, n, bytes, k) && k <= j <= n + 9 * |bytes|
    requires n >= HEARD_PREAMBLE_BITS && |bytes| <= MAX_PACKET_SIZE
    requires !s.ack || (s.phase == AckReq && j > k)
    ensures Quiet(s, FrameRun(s, h, n, bytes, k, j).0)
    decreases j - k
  {
    if k < j {
      var bit := UpToEndBit(n, bytes)[k];
      FrameGoesOn(s, h, n, bytes, k);
      FrameBitQuiet(s, h, n, bytes, k);
      FrameRunQuiet(ReceiveBit(s, bit), NextHistory(s, h, bit), n, bytes, k + 1, j);
    }
  }

  ghost predicate Quiet(s: Rx, t: Rx) {
    && !t.ack && t.selected == s.selected
    && s.ring.Valid() && t.ring.Valid() && t.ring.Queue() == s.ring.Queue()
  }

  lemma {:induction false} FrameBitQuiet(s: Rx, h: seq<SendBit>, n: nat, bytes: seq<Byte>, k: nat)
    requires At(s, h, n, bytes, k) && k < n + 9 * |bytes|
    requires n >= HEARD_PREAMBLE_BITS && |bytes| <= MAX_PACKET_SIZE
    requires CanReceive(s, UpToEndBit(n, bytes)[k])
    requires !s.ack || s.phase == AckReq
    ensures Quiet(s, ReceiveBit(s, UpToEndBit(n, bytes)[k]))
  {
    var bit := UpToEndBit(n, bytes)[k];
    FrameGoesOn(s, h, n, bytes, k);
    StepInv(s, h, bit);
    if k > n {
      RoomInFrame(s, h, bytes, k - n);
      PacketBitQuiet(s, bit);
    } else {
      if k == n { DataBitsAt(bytes, 0); }
      PreambleBitQuiet(s, bit);
    }
  }

  lemma PreambleBitQuiet(s: Rx, bit: SendBit)
    requires CanReceive(s, bit) && bit != Ackreq && (s.phase == AckReq || s.phase == Preamble)
    requires !s.ack || s.phase == AckReq
    ensures !ReceiveBit(s, bit).ack && ReceiveBit(s, bit).selected == s.selected
  {
  }

  lemma PacketBitQuiet(s: Rx, bit: SendBit)
    requires CanReceive(s, bit) && bit != Ackreq && !s.ack
    requires s.phase == Data || (s.phase == EndBit && bit == Zero)
    ensures !ReceiveBit(s, bit).ack && ReceiveBit(s, bit).selected == s.selected
  {
    if s.phase == Data { ShiftInSettings(s, bit == One); }
  }

  /** Truncation: a frame cut before its end bit is nacked in channel 1 if two preamble bits were counted, the first
      being lost to the ackreq phase, or a nack was pending; it is never answered in channel 2 and leaves the queue
      alone. */
  lemma {:induction false} CutFrameIsNacked(s: Rx, h: seq<SendBit>, n: nat, bytes: seq<Byte>, cut: nat, i: nat)
    requires Inv(s, h) && s.selected
    requires n >= HEARD_PREAMBLE_BITS && |bytes| <= MAX_PACKET_SIZE
    requires 1 <= cut <= n + 9 * |bytes|
    ensures CanReceive(s, Ackreq)
    ensures var t := (AckreqStartsFrame(s, h, n, bytes); FrameRun(ReceiveBit(s, Ackreq), [], n, bytes, 0, cut).0);
            && t.selected
            && PulseAt(t, i) == (if 1 <= i <= 3 && (cut >= 3 || s.nack) then InChannel1 else Silent)
            && AfterAckreqs(t, i).ring.Queue() == s.ring.Queue()
  {
    var u := ReceiveBit(s, Ackreq);
    AckreqStartsFrame(s, h, n, bytes);
    FrameRunQuiet(u, [], n, bytes, 0, cut);
    var (t, g) := FrameRun(u, [], n, bytes, 0, cut);
    CutFrameNack(u, n, bytes, cut);
    PulsePattern(t, i);
    AckreqsOnlyCount(t, i);
  }

  lemma {:induction false} AckreqStartsFrame(s: Rx, h: seq<SendBit>, n: nat, bytes: seq<Byte>)
    requires Inv(s, h) && s.selected
    ensures CanReceive(s, Ackreq) && At(ReceiveBit(s, Ackreq), [], n, bytes, 0)
    ensures ReceiveBit(s, Ackreq) == s.(phase := AckReq, ackreqCount := s.ackreqCount + 1)
  {
    StepInv(s, h, Ackreq);
  }

  /** The preamble sets the nack at its second counted bit and never clears one. */
  lemma {:induction false} CutFrameNack(u: Rx, n: nat, bytes: seq<Byte>, cut: nat)
    requires At(u, [], n, bytes, 0) && u.phase == AckReq && u.selected && 1 <= cut <= n + 9 * |bytes|
    requires n >= HEARD_PREAMBLE_BITS && |bytes| <= MAX_PACKET_SIZE
    ensures var t := FrameRun(u, [], n, bytes, 0, cut).0; t.ackreqCount == 0 && (t.nack <==> cut >= 3 || u.nack)
  {
    assert UpToEndBit(n, bytes)[0] == One && UpToEndBit(n, bytes)[1] == One;
    FrameGoesOn(u, [], n, bytes, 0);
    var u1, h1 := ReceiveBit(u, One), NextHistory(u, [], One);
    if cut == 1 {
      assert FrameRun(u1, h1, n, bytes, 1, 1) == (u1, h1);
    } else if cut == 2 {
      FrameGoesOn(u1, h1, n, bytes, 1);
      var u2, h2 := ReceiveBit(u1, One), NextHistory(u1, h1, One);
      assert FrameRun(u2, h2, n, bytes, 2, 2) == (u2, h2);
      assert FrameRun(u1, h1, n, bytes, 1, 2) == (u2, h2);
    } else {
      var (t, h) := FrameRun(u, [], n, bytes, 0, cut);
      assert At(t, h, n, bytes, cut);
    }
  }

  /** A garbled bit inside a packet gives it up: nothing is queued, and the ackreq phase that follows is nacked. */
  lemma {:induction false} GarbledPacketIsNacked(s: Rx, h: seq<SendBit>, i: nat)
    requires Inv(s, h) && s.selected && (s.phase == Data || s.phase == EndBit)
    ensures CanReceive(s, Invalid)
    ensures var t := ReceiveBit(s, Invalid);
            && CanAck(t) && t.selected && t.phase == Preamble && t.ring.Queue() == s.ring.Queue()
            && PulseAt(t, i) == if 1 <= i <= 3 then InChannel1 else Silent
  {
    StepInv(s, h, Invalid);
    PulsePattern(ReceiveBit(s, Invalid), i);
  }

  /** What the end bit makes of the nack: a Busy query is nacked iff corrupt, any other packet iff it is not queued. */
  lemma {:induction false} EndBitNacks(s: Rx, h: seq<SendBit>)
    requires Inv(s, h) && s.phase == EndBit && s.ring.End().size >= 4
    ensures var bytes := s.ring.End().Bytes();
            && CanReceive(s, One)
            && ReceiveBit(s, One).ackreqCount == 0
            && ReceiveBit(s, One).nack == if CommandOf(bytes).Busy? then !Sound(bytes) else !Queues(s, One)
  {
    SoundIsCrcClear(s, h);
    var slot := s.ring.End();
    assert CommandOf(slot.buffer) == CommandOf(slot.Bytes());
  }

  /** After a complete packet other than Busy a selected decoder pulses in channel 1, three times,
      iff it did not queue the packet; after Busy iff the packet was corrupt. */
  lemma {:induction false} CompleteFrameIsAnswered(s: Rx, h: seq<SendBit>, i: nat)
    requires Inv(s, h) && s.phase == EndBit && s.ring.End().size >= 4 && s.selected
    ensures CanReceive(s, One) && CanAck(ReceiveBit(s, One)) && ReceiveBit(s, One).selected
    ensures var bytes := s.ring.End().Bytes();
            var refused := if CommandOf(bytes).Busy? then !Sound(bytes) else !Queues(s, One);
            PulseAt(ReceiveBit(s, One), i) == InChannel1 <==> 1 <= i <= 3 && refused
  {
    EndBitNacks(s, h);
    StepInv(s, h, One);
    assert ReceiveBit(s, One).selected == s.selected;
    PulsePattern(ReceiveBit(s, One), i);
  }

  /** What the end bit makes of the ack, once the frame has withdrawn an old one. */
  lemma {:induction false} EndBitAcks(s: Rx, h: seq<SendBit>)
    requires Inv(s, h) && s.phase == EndBit && s.ring.End().size >= 4 && !s.ack
    ensures var bytes := s.ring.End().Bytes();
            var cmd := CommandOf(bytes);
            && CanReceive(s, One)
            && ReceiveBit(s, One).ack == if s.ring.len == 0 then (HasCrc32(cmd) || cmd.ZsuSalsa20IV?) && !Sound(bytes)
                                         else cmd.Busy? && Sound(bytes)
  {
    SoundIsCrcClear(s, h);
    var slot := s.ring.End();
    assert CommandOf(slot.buffer) == CommandOf(slot.Bytes());
  }

  /** The commands whose corrupt packets are answered in channel 2, too. */
  predicate AnswersCorruption(cmd: Command) {
    cmd == ZsuUpdate || cmd == ZppUpdate || cmd == ZsuSalsa20IV
  }

  /** The answer to a whole frame, from any state. Channel 1: the packet was corrupt, or refused because another one
      waits and it is no Busy query. Channel 2: a sound Busy query while another packet waits, or a corrupt update or
      initialization vector while none does. */
  lemma {:induction false} FrameIsAnswered(s: Rx, h: seq<SendBit>, n: nat, bytes: seq<Byte>, i: nat)
    requires Inv(s, h) && s.selected
    requires n >= HEARD_PREAMBLE_BITS && 4 <= |bytes| <= MAX_PACKET_SIZE
    ensures CanReceive(s, Ackreq)
    ensures var t := (AckreqStartsFrame(s, h, n, bytes);
                      FrameRun(ReceiveBit(s, Ackreq), [], n, bytes, 0, n + 9 * |bytes|).0);
            var cmd, waits := CommandOf(bytes), s.ring.len > 0;
            && CanReceive(t, One) && CanAck(ReceiveBit(t, One)) && ReceiveBit(t, One).selected
            && PulseAt(ReceiveBit(t, One), i)
               == if 1 <= i <= 3 && (!Sound(bytes) || (waits && !cmd.Busy?)) then InChannel1
                  else if 5 <= i <= 7 && (if waits then cmd.Busy? && Sound(bytes)
                                          else AnswersCorruption(cmd) && !Sound(bytes)) then InChannel2
                  else Silent
  {
    var u := ReceiveBit(s, Ackreq);
    AckreqStartsFrame(s, h, n, bytes);
    FrameRunQuiet(u, [], n, bytes, 0, n + 9 * |bytes|);
    var (t, g) := FrameRun(u, [], n, bytes, 0, n + 9 * |bytes|);
    AtEnd(t, g, n, bytes);
    SameQueueSameLength(s, t);
    EndBitAnswers(t, g, bytes, i);
  }

  lemma SameQueueSameLength(s: Rx, t: Rx)
    requires s.ring.Valid() && t.ring.Valid() && t.ring.Queue() == s.ring.Queue()
    ensures t.ring.len == s.ring.len
  {
    assert |s.ring.Queue()| == s.ring.len && |t.ring.Queue()| == t.ring.len;
  }

  lemma {:induction false} EndBitAnswers(t: Rx, h: seq<SendBit>, bytes: seq<Byte>, i: nat)
    requires Inv(t, h) && t.phase == EndBit && t.ring.End().Bytes() == bytes && |bytes| >= 4 && t.selected && !t.ack
    ensures CanReceive(t, One) && CanAck(ReceiveBit(t, One)) && ReceiveBit(t, One).selected
    ensures var cmd, waits := CommandOf(bytes), t.ring.len > 0;
            PulseAt(ReceiveBit(t, One), i)
            == if 1 <= i <= 3 && (!Sound(bytes) || (waits && !cmd.Busy?)) then InChannel1
               else if 5 <= i <= 7 && (if waits then cmd.Busy? && Sound(bytes)
                                       else AnswersCorruption(cmd) && !Sound(bytes)) then InChannel2
               else Silent
  {
    EndBitNacks(t, h);
    EndBitAcks(t, h);
    SoundIsCrcClear(t, h);
    StepInv(t, h, One);
    assert ReceiveBit(t, One).selected == t.selected;
    PulsePattern(ReceiveBit(t, One), i);
  }
}
