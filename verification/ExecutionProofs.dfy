/** What executing a packet in the middle of an ackreq phase makes of the rest of that phase. */
module ExecutionProofs {
  import opened Bytes
  import opened Timing
  import opened Frame
  import opened Command
  import opened Packets
  import opened ReadBack
  import opened BinaryTreeSearch
  import opened Receiver
  import opened Interleaving
  import opened Acknowledge
  import opened Lockstep
  import opened TransferRates

  /** A selected decoder in an ackreq phase with a packet to execute. */
  ghost predicate Due(cfg: Config, s: Rx) {
    cfg.Valid() && s.ring.Valid() && s.ring.len == 1 && s.phase == AckReq && s.selected
  }

  /** Whether bit `i` from here on is one of those channel 2 is heard in. */
  predicate InSecondChannel(s: Rx, i: nat) {
    6 <= s.ackreqCount + i + 1 <= 8
  }

  /** A packet executed leaves the queue, and an answer may be given in what is left of the phase. */
  ghost predicate Answerable(s: Rx, v: Rx) {
    && v.ring.Valid() && v.ring.len == 0 && CanAck(v)
    && v.selected && v.ackreqCount == s.ackreqCount && v.nack == s.nack
  }

  lemma {:induction false} SelectedAnswers(cfg: Config, s: Rx, env: Environment, i: nat)
    requires Due(cfg, s) && !s.ring.Front().Code().Ping?
    ensures var v := AfterExecute(cfg, env, s);
            && Answerable(s, v)
            && v.ack == SelectedBody(cfg, s.ring.Front().Code(), s.ring.Front().Parameter(), env, s).ack
            && (PulseAt(v, i) == InChannel2 <==> InSecondChannel(s, i) && v.ack)
            && (PulseAt(v, i) == InChannel1 <==> 2 <= s.ackreqCount + i + 1 <= 4 && s.nack)
  {
    var packet, v := s.ring.Front(), AfterExecute(cfg, env, s);
    var t := SelectedBody(cfg, packet.Code(), packet.Parameter(), env, s);
    SelectedFields(cfg, packet.Code(), packet.Parameter(), env, s);
    SelectedBodyKeepsSelection(cfg, packet.Code(), packet.Parameter(), env, s);
    PoppedIsAnswerable(s, t);
    assert v == t.(ring := t.ring.PopFront());
    PulsePattern(v, i);
  }

  lemma PoppedIsAnswerable(s: Rx, t: Rx)
    requires s.ring.Valid() && s.ring.len == 1 && s.phase == AckReq && s.selected
    requires SameLine(s, t) && t.selected == s.selected
    ensures Answerable(s, t.(ring := t.ring.PopFront()))
  {
  }

  /** A CV is read bit by bit: the answer is the bit. */
  lemma {:induction false} CvReadIsAnswered(cfg: Config, s: Rx, env: Environment, number: seq<Byte>, pos: Byte, i: nat)
    requires Due(cfg, s) && |number| == 2 && s.ring.Front().Bytes() == CvReadPacket(number, pos)
    ensures var v := AfterExecute(cfg, env, s);
            Answerable(s, v) && (PulseAt(v, i) == InChannel2 <==> InSecondChannel(s, i) && env.cvBit)
  {
    BuiltPacketHolds(s.ring.Front(), CvRead, number + [pos]);
    SelectedAnswers(cfg, s, env, i);
  }

  /** A CV that could not be written is answered. */
  lemma {:induction false} CvWriteIsAnswered(cfg: Config, s: Rx, env: Environment, data: seq<Byte>, i: nat)
    requires Due(cfg, s) && s.ring.Front().Bytes() == MakePacket(CvWrite, data)
    ensures var v := AfterExecute(cfg, env, s);
            Answerable(s, v) && (PulseAt(v, i) == InChannel2 <==> InSecondChannel(s, i) && !env.cvWritten)
  {
    BuiltPacketHolds(s.ring.Front(), CvWrite, data);
    SelectedAnswers(cfg, s, env, i);
  }

  /** A search position is answered as the search says for the decoder's number. */
  lemma {:induction false} SearchIsAnswered(cfg: Config, s: Rx, env: Environment, pos: Byte, i: nat)
    requires Due(cfg, s) && s.ring.Front().Bytes() == SearchPacket(pos)
    ensures var v := AfterExecute(cfg, env, s);
            && Answerable(s, v)
            && v.ignore == Ignores(s.ignore, cfg.Number(), ByteValue(pos))
            && (PulseAt(v, i) == InChannel2
                <==> InSecondChannel(s, i) && Answer(s.ignore, cfg.Number(), ByteValue(pos)))
  {
    SearchRoundTrip(s.ring.Front(), pos);
    SelectedAnswers(cfg, s, env, i);
  }

  /** A transfer rate that is not supported is answered and not taken; one that does not exist is ignored. */
  lemma {:induction false} AnyRateIsAnswered(cfg: Config, s: Rx, env: Environment, code: Byte, i: nat)
    requires Due(cfg, s) && !s.ack && s.ring.Front().Bytes() == MakePacket(ConfigTransferRate, [code])
    ensures var v, value := AfterExecute(cfg, env, s), ByteValue(code);
            && Answerable(s, v)
            && v.rate == (if value < 5 && Supports(cfg, value) then value else s.rate)
            && (PulseAt(v, i) == InChannel2 <==> InSecondChannel(s, i) && value < 5 && !Supports(cfg, value))
  {
    BuiltPacketHolds(s.ring.Front(), ConfigTransferRate, [code]);
    FieldAt(s.ring.Front().buffer, [code], 0, 1);
    assert s.ring.Front().buffer[4..5][0] == code;
    SelectedAnswers(cfg, s, env, i);
  }

  /** A ping is answered by the decoders it selects, selected before or not; the others fall silent in both channels. */
  lemma {:induction false} PingIsAnswered(
    cfg: Config, s: Rx, env: Environment, serialNumber: Word32, decoderId: Word32, i: nat, bit: Bit)
    requires cfg.Valid() && s.ring.Valid() && s.ring.len == 1 && s.phase == AckReq
    requires s.ring.Front().Bytes() == PingPacket(serialNumber, decoderId)
    ensures var v := AfterExecute(cfg, env, s);
            if && (serialNumber == Zeros(32) || serialNumber == Word(cfg.serialNumber))
               && (decoderId == Zeros(32) || decoderId == Word(cfg.decoderId))
            then Answerable(s, v) && (PulseAt(v, i) == InChannel2 <==> InSecondChannel(s, i))
            else !v.selected && !v.ack && PulseChannel(v, bit) == Silent
  {
    PingRoundTrip(cfg, s.ring.Front(), serialNumber, decoderId);
    var v := AfterExecute(cfg, env, s);
    if v.selected { PulsePattern(v, i); }
  }

  /** A decoder just switched on is selected, at the default rate and not yet active; it pulses in no ackreq bit, and
      answers no search command but a reset. */
  lemma {:induction false} SwitchedOn(cfg: Config, i: nat, pos: nat)
    requires cfg.Valid()
    ensures POWER_UP.selected && POWER_UP.rate == 4 && !POWER_UP.active
    ensures CanAck(POWER_UP) && PulseAt(POWER_UP, i) == Silent
    ensures Answer(POWER_UP.ignore, cfg.Number(), pos) <==> pos == 255
  {
    PulsePattern(POWER_UP, i);
  }

  /** A decoder that is not selected drops every other packet unread. */
  lemma UnselectedIgnores(cfg: Config, s: Rx, env: Environment)
    requires cfg.Valid() && s.ring.Valid() && s.ring.len == 1 && !s.selected && !s.ring.Front().Code().Ping?
    ensures AfterExecute(cfg, env, s) == s.(ring := s.ring.PopFront())
  {
  }
}
