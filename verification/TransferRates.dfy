/** How a fallback-timed Config-Transfer-Rate frame brings all decoders to one transfer rate. */
module TransferRates {
  import opened Bytes
  import opened Timing
  import opened Frame
  import opened Command
  import opened Packets
  import opened Receiver
  import opened ReceiverProofs
  import opened Interleaving
  import opened FrameProofs

  /** The byte a transfer rate is sent as. */
  function RateByte(rate: Rate): Byte {
    match rate
    case 0 => 0
    case 1 => 1
    case 2 => 2
    case 3 => 3
    case _ => 4
  }

  lemma RateByteValue(rate: Rate)
    ensures ByteValue(RateByte(rate)) == rate
  {
    match rate {
      case 0 => case 1 => case 2 => case 3 => case _ =>
    }
  }

  /** make_config_transfer_rate_packet */
  function RatePacket(rate: Rate): seq<Byte> {
    MakePacket(ConfigTransferRate, [RateByte(rate)])
  }

  predicate Supports(cfg: Config, rate: Rate) {
    rate == FALLBACK || rate >= cfg.rate
  }

  // ----- the index a decoder can ever have

  lemma BodyRate(cfg: Config, packet: Packet, env: Environment, s: Rx)
    requires cfg.Valid() && packet.Valid() && Supports(cfg, s.rate)
    ensures Supports(cfg, ExecuteBody(cfg, packet, env, s).rate)
  {
    SelectedRate(cfg, packet.Code(), packet.Parameter(), env, s);
  }

  lemma SelectedRate(cfg: Config, cmd: Command, parameter: nat, env: Environment, s: Rx)
    requires cfg.Valid() && Supports(cfg, s.rate)
    ensures Supports(cfg, SelectedBody(cfg, cmd, parameter, env, s).rate)
  {
  }

  /** Every run keeps the index fallback or at least the configured rate. */
  lemma {:induction false} RateStaysSupported(cfg: Config, s: System, events: seq<Event>)
    requires cfg.Valid() && SystemInv(s) && Bounded(cfg, s, events) && Supports(cfg, s.rx.rate)
    ensures Supports(cfg, Run(cfg, s, events).rx.rate)
    decreases |events|
  {
    if events != [] {
      var e := events[0];
      if e.Crossing? { BitKeepsSettings(s.rx, Time2Bit(e.time, s.rx.rate)); }
      if e.Body? && s.task.Holding? { BodyRate(cfg, s.rx.ring.slots[s.task.index], e.env, s.rx); }
      StepKeepsInv(cfg, s, e);
      RateStaysSupported(cfg, Step(cfg, s, e), events[1..]);
    }
  }

  lemma PowerUpRateSupported(cfg: Config)
    ensures Supports(cfg, INITIAL.rx.rate)
  {
  }

  /** So over every run from power-up. */
  lemma {:induction false} RateIsAlwaysSupported(cfg: Config, events: seq<Event>)
    requires cfg.Valid() && (InitialInv(); Bounded(cfg, INITIAL, events))
    ensures Supports(cfg, (InitialInv(); Run(cfg, INITIAL, events)).rx.rate)
  {
    InitialInv();
    PowerUpRateSupported(cfg);
    RateStaysSupported(cfg, INITIAL, events);
  }

  // ----- one frame for all

  /** A decoder that is selected and has nothing to execute. */
  ghost predicate Ready(s: System) {
    SystemInv(s) && s.task == Idle && s.rx.ring.len == 0 && s.rx.selected
  }

  function Crossings(times: seq<nat>): seq<Event> {
    seq(|times|, i requires 0 <= i < |times| => Crossing(times[i]))
  }

  /** What no zero crossing changes: the rate, and whether the decoder takes part in a search. */
  ghost predicate SameHearing(s: Rx, t: Rx) {
    t.rate == s.rate && t.ignore == s.ignore
  }

  lemma {:induction false} CrossingsKeepSettings(cfg: Config, s: System, times: seq<nat>)
    requires cfg.Valid() && SystemInv(s) && Bounded(cfg, s, Crossings(times))
    ensures var t := Run(cfg, s, Crossings(times));
            && t.task == s.task && t.executed == s.executed
            && SameHearing(s.rx, t.rx) && t.rx.selected == s.rx.selected
    decreases |times|
  {
    if times != [] {
      var e := Crossing(times[0]);
      assert Crossings(times)[0] == e && Crossings(times)[1..] == Crossings(times[1..]);
      BitKeepsSettings(s.rx, Time2Bit(times[0], s.rx.rate));
      StepKeepsInv(cfg, s, e);
      CrossingsKeepSettings(cfg, Step(cfg, s, e), times[1..]);
    }
  }

  /** Durations of one bit string, all in the windows of one rate. */
  predicate InWindows(times: seq<nat>, bits: seq<SendBit>, rate: Rate) {
    |times| == |bits| && forall i :: 0 <= i < |times| ==> InWindow(times[i], bits[i], rate)
  }

  lemma {:induction false} InWindowsIsTimed(times: seq<nat>, bits: seq<SendBit>, rate: Rate)
    requires InWindows(times, bits, rate)
    ensures Timed(Crossings(times), bits, rate)
  {
    if times != [] {
      assert Crossings(times)[1..] == Crossings(times[1..]);
      InWindowsIsTimed(times[1..], bits[1..], rate);
    }
  }

  /** An idle system's logs tell what is queued. */
  lemma QueueFromLogs(s: System, waiting: seq<seq<Byte>>)
    requires SystemInv(s) && s.task == Idle && s.received == s.executed + waiting
    ensures s.rx.ring.len == |waiting| && (waiting != [] ==> s.rx.ring.Front().Bytes() == waiting[0])
  {
    var q := s.rx.ring.Queue();
    assert |q| == s.rx.ring.len;
    assert waiting == s.received[|s.executed|..] && q == s.received[|s.executed|..];
  }

  lemma EmptyQueueFromLogs(s: System)
    requires SystemInv(s) && s.task == Idle && s.rx.ring.len == 0
    ensures s.received == s.executed
  {
    assert s.rx.ring.Queue() == [];
  }

  /** All data bits of the packet have come in, the end bit has not. */
  ghost predicate Loaded(s: System, bytes: seq<Byte>) {
    && Ready(s) && s.rx.phase == EndBit && s.rx.ring.End().Bytes() == bytes
  }

  /** A run of zero crossings keeps the rate. */
  lemma {:induction false} CrossingsAreSteady(cfg: Config, s: System, times: seq<nat>)
    requires cfg.Valid() && SystemInv(s)
    ensures Steady(cfg, s, Crossings(times), s.rx.rate)
    decreases |times|
  {
    if times != [] && CanStep(s, Crossing(times[0])) {
      var e := Crossing(times[0]);
      assert Crossings(times)[0] == e && Crossings(times)[1..] == Crossings(times[1..]);
      BitKeepsSettings(s.rx, Time2Bit(times[0], s.rx.rate));
      StepKeepsInv(cfg, s, e);
      CrossingsAreSteady(cfg, Step(cfg, s, e), times[1..]);
    }
  }

  /** Whether a decoder understands what is sent at a rate, whatever else it is sent meanwhile. */
  predicate Hearing(s: Rx, rate: Rate) {
    rate == FALLBACK || rate == s.rate
  }

  /** A packet timed at the decoder's own rate, or at fallback, fills its slot. */
  lemma {:induction false} PacketLoads(
    cfg: Config, s: System, ackreq: nat, frame: seq<nat>, n: nat, bytes: seq<Byte>, rate: Rate)
    requires cfg.Valid() && Ready(s) && TX_MIN_PREAMBLE_BITS <= n && 4 <= |bytes| <= MAX_PACKET_SIZE
    requires Hearing(s.rx, rate)
    requires InWindow(ackreq, Ackreq, rate) && InWindows(frame, UpToEndBit(n, bytes), rate)
    ensures Bounded(cfg, s, Crossings([ackreq] + frame))
    ensures var t := Run(cfg, s, Crossings([ackreq] + frame)); Loaded(t, bytes) && SameHearing(s.rx, t.rx)
  {
    ClassifiesExactly(ackreq, Ackreq, s.rx.rate);
    InWindowsIsTimed(frame, UpToEndBit(n, bytes), rate);
    assert Crossings([ackreq] + frame) == [Crossing(ackreq)] + Crossings(frame);
    AckreqSynchronises(cfg, s, ackreq, n, bytes);
    StepKeepsInv(cfg, s, Crossing(ackreq));
    BitKeepsSettings(s.rx, Ackreq);
    CrossingsAreSteady(cfg, Step(cfg, s, Crossing(ackreq)), frame);
    WireRoundTrip(cfg, s, ackreq, Crossings(frame), n, bytes, rate);
    CrossingsKeepSettings(cfg, s, [ackreq] + frame);
    EmptyQueueFromLogs(s);
    QueueFromLogs(Run(cfg, s, Crossings([ackreq] + frame)), []);
  }

  /** The start of an ackreq phase without a nack to give. */
  ghost predicate Opens(s: Rx) {
    s.phase == AckReq && s.ackreqCount == 0 && !s.nack
  }

  /** Its end bit queues it. */
  lemma {:induction false} LoadedPacketIsQueued(cfg: Config, s: System, end: nat, bytes: seq<Byte>, rate: Rate)
    requires cfg.Valid() && Loaded(s, bytes) && |bytes| >= 4 && Sound(bytes)
    requires Hearing(s.rx, rate) && InWindow(end, One, rate)
    ensures CanStep(s, Crossing(end))
    ensures Queued(Step(cfg, s, Crossing(end)), bytes) && SameHearing(s.rx, Step(cfg, s, Crossing(end)).rx)
    ensures Opens(Step(cfg, s, Crossing(end)).rx)
  {
    LoadedPacketIsReceived(cfg, s, end, bytes, rate);
    StepKeepsInv(cfg, s, Crossing(end));
    EmptyQueueFromLogs(s);
    QueueFromLogs(Step(cfg, s, Crossing(end)), [bytes]);
  }

  lemma {:induction false} LoadedPacketIsReceived(cfg: Config, s: System, end: nat, bytes: seq<Byte>, rate: Rate)
    requires cfg.Valid() && Loaded(s, bytes) && |bytes| >= 4 && Sound(bytes)
    requires Hearing(s.rx, rate) && InWindow(end, One, rate)
    ensures CanStep(s, Crossing(end))
    ensures var u := Step(cfg, s, Crossing(end));
            && u.received == s.received + [bytes] && u.executed == s.executed && u.task == Idle
            && SameSettings(s.rx, u.rx) && Opens(u.rx)
  {
    ClassifiesExactly(end, One, s.rx.rate);
    EndBitQueues(cfg, s, end);
    SoundIsCrcClear(s.rx, s.history);
    BitKeepsSettings(s.rx, One);
  }

  /** The packet waits in a selected, idle decoder. */
  ghost predicate Queued(s: System, bytes: seq<Byte>) {
    SystemInv(s) && s.task == Idle && s.rx.selected && s.rx.ring.len == 1 && s.rx.ring.Front().Bytes() == bytes
  }

  /** The three steps of one execution. */
  function Execution(env: Environment): seq<Event> {
    [Start, Body(env), Pop]
  }

  lemma {:induction false} ExecutionRuns(cfg: Config, s: System, env: Environment)
    requires cfg.Valid() && SystemInv(s) && s.task == Idle && s.rx.ring.len == 1
    ensures Bounded(cfg, s, Execution(env))
    ensures var t := Run(cfg, s, Execution(env));
            && SystemInv(t) && t.task == Idle
            && t.rx == ExecuteBody(cfg, s.rx.ring.Front(), env, s.rx).(ring := s.rx.ring.PopFront())
  {
    var s1 := Step(cfg, s, Start);
    StepKeepsInv(cfg, s, Start);
    var s2 := Step(cfg, s1, Body(env));
    StepKeepsInv(cfg, s1, Body(env));
    StepKeepsInv(cfg, s2, Pop);
    BodyFields(cfg, s.rx.ring.Front(), env, s.rx);
    assert Execution(env)[1..] == [Body(env), Pop] && [Body(env), Pop][1..] == [Pop];
    assert Run(cfg, s2, [Pop]) == Step(cfg, s2, Pop);
    assert Run(cfg, s1, [Body(env), Pop]) == Run(cfg, s2, [Pop]);
  }

  lemma {:induction false} RatePacketParameter(packet: Packet, rate: Rate)
    requires packet.Valid() && packet.Bytes() == RatePacket(rate)
    ensures packet.Code() == ConfigTransferRate && packet.Parameter() == rate
  {
    PacketIsSound(ConfigTransferRate, [RateByte(rate)]);
    RateByteValue(rate);
    assert packet.Bytes()[4] == RateByte(rate);
    assert packet.buffer[4] == packet.Bytes()[4] && CommandOf(packet.buffer) == CommandOf(packet.Bytes());
  }

  /** Executing the queued rate packet: a supporting decoder takes the rate, another keeps its own and acknowledges. */
  lemma {:induction false} RatePacketTakesEffect(cfg: Config, s: System, env: Environment, rate: Rate)
    requires cfg.Valid() && Queued(s, RatePacket(rate))
    ensures Bounded(cfg, s, Execution(env))
    ensures var t := Run(cfg, s, Execution(env)); Ready(t) && TookRate(cfg, s.rx, t.rx, rate)
  {
    ExecutionRuns(cfg, s, env);
    RatePacketParameter(s.rx.ring.Front(), rate);
  }

  ghost predicate TookRate(cfg: Config, before: Rx, after: Rx, rate: Rate) {
    if Supports(cfg, rate) then after.rate == rate else after.rate == before.rate && after.ack
  }

  /** Everything a decoder goes through: the last ackreq bit before the frame, the frame, its end bit, one execution. */
  function Reconfiguration(ackreq: nat, frame: seq<nat>, end: nat, env: Environment): seq<Event> {
    Crossings([ackreq] + frame) + [Crossing(end)] + Execution(env)
  }

  /** A sound packet timed at the decoder's own rate, or at fallback whatever that is, ends up queued. */
  lemma {:induction false} PacketIsQueued(
    cfg: Config, s: System, ackreq: nat, frame: seq<nat>, end: nat, n: nat, bytes: seq<Byte>, rate: Rate)
    requires cfg.Valid() && Ready(s) && TX_MIN_PREAMBLE_BITS <= n && 4 <= |bytes| <= MAX_PACKET_SIZE && Sound(bytes)
    requires Hearing(s.rx, rate)
    requires InWindow(ackreq, Ackreq, rate) && InWindow(end, One, rate)
    requires InWindows(frame, UpToEndBit(n, bytes), rate)
    ensures Bounded(cfg, s, Crossings([ackreq] + frame) + [Crossing(end)])
    ensures var u := Run(cfg, s, Crossings([ackreq] + frame) + [Crossing(end)]);
            Queued(u, bytes) && SameHearing(s.rx, u.rx) && Opens(u.rx)
  {
    PacketLoads(cfg, s, ackreq, frame, n, bytes, rate);
    var t := Run(cfg, s, Crossings([ackreq] + frame));
    LoadedPacketIsQueued(cfg, t, end, bytes, rate);
    assert Run(cfg, t, [Crossing(end)]) == Step(cfg, t, Crossing(end));
    RunConcat(cfg, s, Crossings([ackreq] + frame), [Crossing(end)]);
  }

  lemma {:induction false} DecoderReconverges(
    cfg: Config, s: System, ackreq: nat, frame: seq<nat>, end: nat, env: Environment, n: nat, rate: Rate)
    requires cfg.Valid() && Ready(s) && TX_MIN_PREAMBLE_BITS <= n
    requires InWindow(ackreq, Ackreq, FALLBACK) && InWindow(end, One, FALLBACK)
    requires InWindows(frame, UpToEndBit(n, RatePacket(rate)), FALLBACK)
    ensures Bounded(cfg, s, Reconfiguration(ackreq, frame, end, env))
    ensures var t := Run(cfg, s, Reconfiguration(ackreq, frame, end, env));
            Ready(t) && TookRate(cfg, s.rx, t.rx, rate)
  {
    PacketIsSound(ConfigTransferRate, [RateByte(rate)]);
    PacketIsQueued(cfg, s, ackreq, frame, end, n, RatePacket(rate), FALLBACK);
    var received := Crossings([ackreq] + frame) + [Crossing(end)];
    RatePacketTakesEffect(cfg, Run(cfg, s, received), env, rate);
    RunConcat(cfg, s, received, Execution(env));
  }

  /** A decoder of a population with what its hardware answers. */
  datatype Member = Member(cfg: Config, state: System, env: Environment)

  ghost predicate ReadyMember(m: Member) {
    m.cfg.Valid() && Ready(m.state)
  }

  ghost predicate Reconverges(m: Member, events: seq<Event>, rate: Rate)
    requires ReadyMember(m)
  {
    && Bounded(m.cfg, m.state, events)
    && var after := Run(m.cfg, m.state, events);
       Ready(after) && TookRate(m.cfg, m.state.rx, after.rx, rate)
  }

  /** One frame for a whole population: afterwards all decoders that support the rate share it,
      whatever their rates were, and all others have kept theirs and answer. */
  lemma {:induction false} PopulationReconverges(
    population: seq<Member>, ackreq: nat, frame: seq<nat>, end: nat, n: nat, rate: Rate)
    requires forall d :: 0 <= d < |population| ==> ReadyMember(population[d])
    requires TX_MIN_PREAMBLE_BITS <= n
    requires InWindow(ackreq, Ackreq, FALLBACK) && InWindow(end, One, FALLBACK)
    requires InWindows(frame, UpToEndBit(n, RatePacket(rate)), FALLBACK)
    ensures forall d :: 0 <= d < |population| ==>
              Reconverges(population[d], Reconfiguration(ackreq, frame, end, population[d].env), rate)
  {
    forall d | 0 <= d < |population|
      ensures Reconverges(population[d], Reconfiguration(ackreq, frame, end, population[d].env), rate)
    {
      var m := population[d];
      DecoderReconverges(m.cfg, m.state, ackreq, frame, end, m.env, n, rate);
    }
  }
}
