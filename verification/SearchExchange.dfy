/** One search command over the track: a decoder receives it, executes it and answers in the ackreq bits that follow. */
module SearchExchange {
  import opened Bytes
  import opened Timing
  import opened Frame
  import opened Packets
  import opened ReadBack
  import opened BinaryTreeSearch
  import opened Receiver
  import opened ReceiverProofs
  import opened Interleaving
  import opened FrameProofs
  import opened TransferRates
  import opened ExecutionProofs
  import opened Acknowledge
  import C = Command

  // ----- the number a decoder is found by

  /** The serial number and the decoder id as numbers. */
  function SerialNumberOf(cfg: Config): nat
    requires cfg.Valid()
  {
    BitsValue(Word(cfg.serialNumber))
  }

  function DecoderIdOf(cfg: Config): nat
    requires cfg.Valid()
  {
    BitsValue(Word(cfg.decoderId))
  }

  /** The decoder id above the serial number, bit by bit. */
  ghost predicate Joins(id: Id, serialNumber: nat, decoderId: nat) {
    forall i :: 0 <= i < 32 ==> id[i] == BitOfNumber(serialNumber, i) && id[32 + i] == BitOfNumber(decoderId, i)
  }

  ghost predicate IsNumberOf(id: Id, cfg: Config)
    requires cfg.Valid()
  {
    Joins(id, SerialNumberOf(cfg), DecoderIdOf(cfg))
  }

  /** A decoder answers the search with its decoder id above its serial number, and with no other number. */
  lemma {:induction false} NumberJoins(cfg: Config, id: Id)
    requires cfg.Valid()
    ensures IsNumberOf(id, cfg) <==> id == cfg.Number()
  {
    var number := cfg.Number();
    AllBitsConcat(cfg.decoderId, cfg.serialNumber);
    forall i | 0 <= i < 32
      ensures number[i] == BitOfNumber(SerialNumberOf(cfg), i) && number[32 + i] == BitOfNumber(DecoderIdOf(cfg), i)
    {
      BitsOfValue(Word(cfg.serialNumber), i);
      BitsOfValue(Word(cfg.decoderId), i);
    }
    if IsNumberOf(id, cfg) {
      forall i | 0 <= i < 64 ensures id[i] == number[i] {
        if i >= 32 { assert id[32 + (i - 32)] == BitOfNumber(DecoderIdOf(cfg), i - 32); }
      }
    }
  }

  // ----- the command on its way

  /** A selected decoder with nothing to execute and not in the middle of a packet. */
  ghost predicate Attentive(s: Rx) {
    && s.ring.Valid() && s.ring.len == 0 && s.selected
    && (s.phase == AckReq || (s.phase == Preamble && PreambleInv(s)))
  }

  /** The last ackreq bit before a search packet, and the packet. */
  function SearchBits(n: nat, pos: Byte): seq<SendBit> {
    [Ackreq] + PacketBits(n, SearchPacket(pos))
  }

  /** A decoder that has just received a search packet. */
  ghost predicate Holding(s: Rx, pos: Byte) {
    && s.ring.Valid() && s.ring.len == 1 && s.ring.Front().Bytes() == SearchPacket(pos)
    && s.selected && Opens(s)
  }

  ghost predicate Arrives(cfg: Config, s: System, times: seq<nat>, pos: Byte)
    requires cfg.Valid() && SystemInv(s)
  {
    && Bounded(cfg, s, Crossings(times))
    && var u := Run(cfg, s, Crossings(times)).rx; Holding(u, pos) && SameHearing(s.rx, u)
  }

  /** The durations of a search command: an ackreq bit, the packet up to its end bit, and the end bit. */
  lemma {:induction false} SearchTimes(times: seq<nat>, n: nat, pos: Byte, rate: Rate)
    requires InWindows(times, SearchBits(n, pos), rate)
    ensures var last := |times| - 1;
            && last == n + 9 * |SearchPacket(pos)| + 1 && times == [times[0]] + times[1..last] + [times[last]]
            && InWindow(times[0], Ackreq, rate) && InWindow(times[last], One, rate)
            && InWindows(times[1..last], UpToEndBit(n, SearchPacket(pos)), rate)
  {
    var bits, upToEnd := SearchBits(n, pos), UpToEndBit(n, SearchPacket(pos));
    SearchPacketLength(pos);
    assert bits == [Ackreq] + upToEnd + [One];
    var last := |times| - 1;
    forall i | 0 <= i < last - 1 ensures InWindow(times[1..last][i], upToEnd[i], rate) {
      assert times[1..last][i] == times[i + 1] && upToEnd[i] == bits[i + 1];
    }
    assert bits[last] == One;
  }

  lemma SearchPacketLength(pos: Byte)
    ensures |SearchPacket(pos)| == 6 && Sound(SearchPacket(pos))
  {
    PacketIsSound(C.BinaryTreeSearch, [pos]);
    C.CommandOfCode(C.BinaryTreeSearch, [pos]);
  }

  lemma {:induction false} SearchArrives(cfg: Config, s: System, times: seq<nat>, n: nat, pos: Byte, rate: Rate)
    requires cfg.Valid() && Ready(s) && Hearing(s.rx, rate)
    requires n >= TX_MIN_PREAMBLE_BITS && InWindows(times, SearchBits(n, pos), rate)
    ensures Arrives(cfg, s, times, pos)
  {
    var last := |times| - 1;
    SearchPacketLength(pos);
    SearchTimes(times, n, pos, rate);
    PacketIsQueued(cfg, s, times[0], times[1..last], times[last], n, SearchPacket(pos), rate);
    CrossingsJoined([times[0]] + times[1..last], times[last]);
  }

  lemma CrossingsJoined(times: seq<nat>, end: nat)
    ensures Crossings(times) + [Crossing(end)] == Crossings(times + [end])
  {
  }

  /** An attentive decoder receives the packet. */
  lemma {:induction false} AttentiveHears(cfg: Config, s: Rx, times: seq<nat>, n: nat, pos: Byte, rate: Rate)
    returns (start: System)
    requires cfg.Valid() && Attentive(s) && Hearing(s, rate)
    requires n >= TX_MIN_PREAMBLE_BITS && InWindows(times, SearchBits(n, pos), rate)
    ensures SystemInv(start) && start.rx == s && Arrives(cfg, start, times, pos)
  {
    start := System(s, Idle, [], [], []);
    assert s.ring.Queue() == [];
    SearchArrives(cfg, start, times, n, pos, rate);
  }

  /** Executing it leaves the answer to be given in the phase that opens. */
  lemma {:induction false} SearchExecutes(cfg: Config, s: Rx, env: Environment, pos: Byte)
    requires cfg.Valid() && Holding(s, pos)
    ensures var v := AfterExecute(cfg, env, s);
            && v.ring.Valid() && v.ring.len == 0 && v.selected && Opens(v) && v.rate == s.rate
            && v.ack == Answer(s.ignore, cfg.Number(), ByteValue(pos))
            && v.ignore == Ignores(s.ignore, cfg.Number(), ByteValue(pos))
  {
    SearchRoundTrip(s.ring.Front(), pos);
  }

  // ----- a decoder's part

  /** The first of a run of crossings. */
  lemma {:induction false} FirstCrossing(cfg: Config, s: System, times: seq<nat>)
    requires cfg.Valid() && SystemInv(s) && times != [] && Bounded(cfg, s, Crossings(times))
    ensures CanStep(s, Crossing(times[0]))
    ensures (StepKeepsInv(cfg, s, Crossing(times[0]));
             var u := Step(cfg, s, Crossing(times[0]));
             && Bounded(cfg, u, Crossings(times[1..]))
             && Run(cfg, u, Crossings(times[1..])) == Run(cfg, s, Crossings(times)))
  {
    assert Crossings(times)[0] == Crossing(times[0]) && Crossings(times)[1..] == Crossings(times[1..]);
    StepKeepsInv(cfg, s, Crossing(times[0]));
  }

  method ReceiveAll(base: Base, times: seq<nat>, ghost start: System)
    requires base.Whole() && base.Valid() && SystemInv(start) && base.State() == start.rx
    requires Bounded(base.cfg, start, Crossings(times))
    modifies base, base.parts
    ensures base.Valid() && base.State() == Run(base.cfg, start, Crossings(times)).rx
  {
    ghost var s := start;
    for i := 0 to |times|
      invariant base.Valid() && SystemInv(s) && base.State() == s.rx
      invariant Bounded(base.cfg, s, Crossings(times[i..]))
      invariant Run(base.cfg, s, Crossings(times[i..])) == Run(base.cfg, start, Crossings(times))
    {
      FirstCrossing(base.cfg, s, times[i..]);
      assert times[i..][1..] == times[i + 1..];
      base.Receive(times[i]);
      StepKeepsInv(base.cfg, s, Crossing(times[i]));
      s := Step(base.cfg, s, Crossing(times[i]));
    }
  }

  /** Ackreq bits, and whether a pulse was seen in them. */
  method Await(base: Base, times: seq<nat>) returns (heard: bool)
    requires base.Whole() && base.Valid() && base.State().ring.len == 0 && base.selected && Opens(base.State())
    requires |times| >= 8
    requires forall i :: 0 <= i < |times| ==> Time2Bit(times[i], base.transferRateIndex) == Ackreq
    modifies base, base.parts
    ensures base.Valid() && base.State() == old(base.State()).(ackreqCount := |times|)
    ensures heard <==> old(base.ack)
  {
    var before := |base.pulses|;
    for i := 0 to |times|
      invariant base.Valid() && base.State() == old(base.State()).(ackreqCount := i)
      invariant before <= |base.pulses| && (before < |base.pulses| <==> i >= 6 && old(base.ack))
    {
      base.Receive(times[i]);
    }
    heard := before < |base.pulses|;
  }

  /** A decoder hears a search command, executes it and answers: exactly as the search says for its number. */
  method Hear(base: Base, arriving: seq<nat>, answering: seq<nat>, env: Environment,
              ghost n: nat, ghost pos: Byte, ghost rate: Rate) returns (heard: bool)
    requires base.Whole() && base.Valid() && Attentive(base.State()) && Hearing(base.State(), rate)
    requires n >= TX_MIN_PREAMBLE_BITS && InWindows(arriving, SearchBits(n, pos), rate)
    requires |answering| >= 8 && InWindows(answering, Repeat(Ackreq, |answering|), rate)
    modifies base, base.parts
    ensures base.Valid() && Attentive(base.State()) && base.transferRateIndex == old(base.transferRateIndex)
    ensures base.search.ignore == Ignores(old(base.search.ignore), base.cfg.Number(), ByteValue(pos))
    ensures heard <==> Answer(old(base.search.ignore), base.cfg.Number(), ByteValue(pos))
  {
    ghost var start := AttentiveHears(base.cfg, base.State(), arriving, n, pos, rate);
    ReceiveAll(base, arriving, start);
    SearchExecutes(base.cfg, base.State(), env, pos);
    base.Execute(env);
    AckreqsAreHeard(answering, base.transferRateIndex, rate);
    heard := Await(base, answering);
  }

  lemma AckreqsAreHeard(times: seq<nat>, receiver: Rate, rate: Rate)
    requires InWindows(times, Repeat(Ackreq, |times|), rate) && (rate == FALLBACK || rate == receiver)
    ensures forall i :: 0 <= i < |times| ==> Time2Bit(times[i], receiver) == Ackreq
  {
    forall i | 0 <= i < |times| ensures Time2Bit(times[i], receiver) == Ackreq {
      ClassifiesExactly(times[i], Ackreq, receiver);
    }
  }
}
