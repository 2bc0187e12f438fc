/** A run from power-up in which a decoder is selected in the middle of an ackreq phase and answers in the wrong
    places. */
module LateSelection {
  import opened Bytes
  import opened Timing
  import opened Frame
  import opened Command
  import opened Packets
  import opened ReadBack
  import opened Receiver
  import opened ReceiverProofs
  import opened Interleaving
  import opened FrameProofs
  import opened TransferRates
  import opened Lockstep
  import opened Link
  import T = Transmitter

  // ----- tracks reached from one another

  ghost predicate LeadsBy(cfg: Config, start: Track, events: seq<TrackEvent>, l: Track)
    requires cfg.Valid() && Aligned(start)
  {
    AllHappen(cfg, start, events) && RunTrack(cfg, start, events) == l
  }

  ghost predicate Leads(cfg: Config, start: Track, l: Track) {
    cfg.Valid() && Aligned(start) && exists events :: LeadsBy(cfg, start, events, l)
  }

  lemma {:induction false} LeadsToItself(cfg: Config, l: Track)
    requires cfg.Valid() && Aligned(l)
    ensures Leads(cfg, l, l)
  {
    assert LeadsBy(cfg, l, [], l);
  }

  lemma {:induction false} RunOneMore(cfg: Config, l: Track, events: seq<TrackEvent>, e: TrackEvent)
    requires cfg.Valid() && Aligned(l) && AllHappen(cfg, l, events) && CanHappen(cfg, RunTrack(cfg, l, events), e)
    ensures AllHappen(cfg, l, events + [e])
    ensures RunTrack(cfg, l, events + [e]) == Next(cfg, RunTrack(cfg, l, events), e)
    decreases |events|
  {
    var all := events + [e];
    if events == [] {
      assert all == [e] && all[1..] == [];
      StaysAligned(cfg, l, e);
    } else {
      assert all[0] == events[0] && all[1..] == events[1..] + [e];
      StaysAligned(cfg, l, events[0]);
      RunOneMore(cfg, Next(cfg, l, events[0]), events[1..], e);
    }
  }

  /** A track that is reached is aligned, and one event further is reached, too. */
  lemma {:induction false} LeadsFurther(cfg: Config, start: Track, l: Track, e: TrackEvent)
    requires Leads(cfg, start, l)
    ensures Aligned(l)
    ensures CanHappen(cfg, l, e) ==> Leads(cfg, start, Next(cfg, l, e))
  {
    var events :| LeadsBy(cfg, start, events, l);
    if CanHappen(cfg, l, e) {
      RunOneMore(cfg, start, events, e);
      assert LeadsBy(cfg, start, events + [e], Next(cfg, l, e));
    }
  }

  lemma {:induction false} LeadsCrossed(cfg: Config, start: Track, l: Track, times: seq<nat>)
    requires Leads(cfg, start, l) && SystemInv(l.rx) && AllCross(cfg, l, times)
    ensures Leads(cfg, start, Crossed(cfg, l, times))
    decreases |times|
  {
    if times != [] {
      LeadsFurther(cfg, start, l, Cross(times[0]));
      CrossKeepsSystemInv(cfg, l, times[0]);
      LeadsCrossed(cfg, start, Next(cfg, l, Cross(times[0])), times[1..]);
    }
  }

  // ----- the steps of the run

  /** A decoder at the default rate with nothing to do but listen, and a transmitter with nothing to send. */
  ghost predicate Resting(cfg: Config, start: Track, l: Track) {
    && Leads(cfg, start, l) && Listening(l) && T.Idle(l.tx)
    && l.tx.cfg == T.DEFAULT_CONFIG && l.tx.rate == DEFAULT && l.rx.rx.rate == DEFAULT
    && (l.wire.Sent? ==> l.wire.bit == Ackreq)
  }

  /** Ackreq bit `count` of the phase after a packet is on the wire. */
  ghost predicate InPhase(cfg: Config, start: Track, l: Track, count: nat) {
    && Leads(cfg, start, l) && SystemInv(l.rx)
    && l.tx.cfg == T.DEFAULT_CONFIG && l.tx.rate == DEFAULT && l.rx.rx.rate == DEFAULT
    && l.tx.rest == [] && l.tx.ackreqCount == count <= TX_MIN_ACKREQ_BITS && l.wire == Sent(Ackreq, count)
  }

  const ACKREQ_TIME: nat := 225

  /** A ping goes out and is queued. */
  lemma {:induction false} PingArrives(cfg: Config, start: Track, l: Track, serialNumber: Word32, decoderId: Word32)
    returns (m: Track)
    requires cfg.Valid() && Resting(cfg, start, l)
    ensures InPhase(cfg, start, m, 1) && m.rx.task == Idle && m.rx.rx.ring.len == 1
    ensures m.rx.rx.selected == l.rx.rx.selected
    ensures m.rx.rx.ring.Front().Bytes() == PingPacket(serialNumber, decoderId)
  {
    var data := WordBytes(serialNumber) + WordBytes(decoderId);
    var ping := MakePacket(Ping, data);
    CommandOfCode(Ping, data);
    LeadsFurther(cfg, start, l, Cross(0));
    BuiltPacketArrives(cfg, l, Ping, data, ACKREQ_TIME);
    var bits := PacketBits(l.tx.cfg.numPreamble, ping);
    var sent := Next(cfg, l, Request(T.Send(bits)));
    LeadsFurther(cfg, start, l, Request(T.Send(bits)));
    LeadsCrossed(cfg, start, sent, [ACKREQ_TIME] + Durations(bits, l.tx.rate));
    m := Crossed(cfg, sent, [ACKREQ_TIME] + Durations(bits, l.tx.rate));
    EmptyQueueFromLogs(l.rx);
    QueueFromLogs(m.rx, [ping]);
  }

  /** Its execution while the first ackreq bit is on the wire. */
  lemma {:induction false} PingExecutes(cfg: Config, start: Track, l: Track, env: Environment, serialNumber: Word32,
                                        decoderId: Word32)
    returns (m: Track)
    requires cfg.Valid() && InPhase(cfg, start, l, 1) && l.rx.task == Idle && l.rx.rx.ring.len == 1
    requires l.rx.rx.ring.Front().Bytes() == PingPacket(serialNumber, decoderId)
    ensures InPhase(cfg, start, m, 1) && m.rx.task == Idle && m.rx.rx.ring.len == 0
    ensures m.rx.rx.selected
       <==> && (serialNumber == Zeros(32) || serialNumber == Word(cfg.serialNumber))
            && (decoderId == Zeros(32) || decoderId == Word(cfg.decoderId))
  {
    PingRoundTrip(cfg, l.rx.rx.ring.Front(), serialNumber, decoderId);
    LeadsFurther(cfg, start, l, Task(Start));
    var l1 := Next(cfg, l, Task(Start));
    LeadsFurther(cfg, start, l1, Task(Body(env)));
    var l2 := Next(cfg, l1, Task(Body(env)));
    LeadsFurther(cfg, start, l2, Task(Pop));
    m := Next(cfg, l2, Task(Pop));
    LeadsFurther(cfg, start, m, Cross(0));
  }

  /** Further ackreq bits. */
  lemma {:induction false} PhaseGoesOn(cfg: Config, start: Track, l: Track, count: nat, to: nat) returns (m: Track)
    requires cfg.Valid() && InPhase(cfg, start, l, count) && count <= to <= TX_MIN_ACKREQ_BITS
    ensures InPhase(cfg, start, m, to)
    ensures m.rx.task == l.rx.task && m.rx.rx.ring.len == l.rx.rx.ring.len && m.rx.rx.selected == l.rx.rx.selected
    ensures l.rx.rx.ring.len == 1 ==> m.rx.rx.ring.Front().Bytes() == l.rx.rx.ring.Front().Bytes()
    decreases TX_MIN_ACKREQ_BITS + to - count
  {
    m := l;
    if count < to {
      var next := OneMoreAckreq(cfg, start, l, count);
      m := PhaseGoesOn(cfg, start, next, count + 1, to);
    }
  }

  /** An ackreq bit leaves a waiting packet where it is. */
  lemma {:induction false} AckreqKeepsQueue(cfg: Config, s: System, time: nat)
    requires cfg.Valid() && SystemInv(s) && CanStep(s, Crossing(time)) && Time2Bit(time, s.rx.rate) == Ackreq
    ensures var t := Step(cfg, s, Crossing(time));
            && SystemInv(t) && t.task == s.task && t.rx.rate == s.rx.rate && t.rx.selected == s.rx.selected
            && t.rx.ring.len == s.rx.ring.len
            && (s.rx.ring.len == 1 ==> t.rx.ring.Front().Bytes() == s.rx.ring.Front().Bytes())
  {
    StepKeepsInv(cfg, s, Crossing(time));
    StepInv(s.rx, s.history, Ackreq);
    BitKeepsSettings(s.rx, Ackreq);
    if s.rx.ring.len == 1 {
      var t := Step(cfg, s, Crossing(time));
      assert s.rx.ring.Queue()[0] == s.rx.ring.Front().Bytes();
      assert t.rx.ring.Queue()[0] == t.rx.ring.Front().Bytes();
    }
  }

  lemma {:induction false} OneMoreAckreq(cfg: Config, start: Track, l: Track, count: nat) returns (m: Track)
    requires cfg.Valid() && InPhase(cfg, start, l, count) && count < TX_MIN_ACKREQ_BITS
    ensures InPhase(cfg, start, m, count + 1)
    ensures m.rx.task == l.rx.task && m.rx.rx.ring.len == l.rx.rx.ring.len && m.rx.rx.selected == l.rx.rx.selected
    ensures l.rx.rx.ring.len == 1 ==> m.rx.rx.ring.Front().Bytes() == l.rx.rx.ring.Front().Bytes()
  {
    NominalIsUnderstood(Ackreq, DEFAULT, DEFAULT);
    assert Nominal(Ackreq, DEFAULT) == ACKREQ_TIME;
    AckreqKeepsQueue(cfg, l.rx, ACKREQ_TIME);
    LeadsFurther(cfg, start, l, Cross(ACKREQ_TIME));
    m := Next(cfg, l, Cross(ACKREQ_TIME));
  }

  /** The rest of a phase is understood, whoever is selected. */
  lemma {:induction false} RestOfPhase(cfg: Config, l: Track, count: nat) returns (times: seq<nat>)
    requires cfg.Valid() && SystemInv(l.rx) && l.rx.rx.rate == DEFAULT && l.tx.cfg.numAckreq == TX_MIN_ACKREQ_BITS
    requires l.tx.rest == [] && l.tx.ackreqCount == count <= TX_MIN_ACKREQ_BITS && l.wire == Sent(Ackreq, count)
    ensures AllCross(cfg, l, times) && |times| == TX_MIN_ACKREQ_BITS - count
    decreases TX_MIN_ACKREQ_BITS + 1 - count
  {
    if count == TX_MIN_ACKREQ_BITS {
      times := [];
    } else {
      NominalIsUnderstood(Ackreq, DEFAULT, DEFAULT);
      assert Nominal(Ackreq, DEFAULT) == ACKREQ_TIME;
      CrossKeepsSystemInv(cfg, l, ACKREQ_TIME);
      BitKeepsSettings(l.rx.rx, Ackreq);
      var rest := RestOfPhase(cfg, Next(cfg, l, Cross(ACKREQ_TIME)), count + 1);
      times := [ACKREQ_TIME] + rest;
      assert times[1..] == rest;
    }
  }

  /** The number with bit `i` set alone. */
  function OneAt(i: nat): Word32
    requires i < 32
  {
    Zeros(32)[i := true]
  }

  /** A number that is neither zero nor the decoder's own. */
  function OtherNumber(own: Word32): Word32 {
    if own == OneAt(0) then OneAt(1) else OneAt(0)
  }

  lemma {:induction false} OtherNumberDiffers(own: Word32)
    ensures OtherNumber(own) != own && OtherNumber(own) != Zeros(32)
  {
    assert OneAt(0)[0] && !OneAt(1)[0] && OneAt(1)[1] && !Zeros(32)[0] && !Zeros(32)[1];
  }

  /** From power-up a ping deselects the decoder; a second one selects it again, executed while its second ackreq bit is
      on the wire. Then not every pulse up to the end of that phase meets its hook. */
  lemma {:induction false} LateSelectionHappens(cfg: Config, env: Environment) returns (l: Track, times: seq<nat>)
    requires cfg.Valid()
    ensures Leads(cfg, POWERED, l) && Aligned(l) && l.wire == Sent(Ackreq, 2)
    ensures !l.rx.rx.selected && Finished(cfg, l.rx, env).rx.selected
    ensures |times| == LastAckreq(l) - l.wire.count
    ensures AllCross(cfg, l.(rx := Finished(cfg, l.rx, env)), times)
    ensures !AllMeet(cfg, l.(rx := Finished(cfg, l.rx, env)), times)
  {
    PoweredAligned();
    LeadsToItself(cfg, POWERED);
    l, times := RestingToLate(cfg, POWERED, POWERED, env);
  }

  lemma {:induction false} RestingToLate(cfg: Config, start: Track, resting: Track, env: Environment)
    returns (l: Track, times: seq<nat>)
    requires cfg.Valid() && Resting(cfg, start, resting)
    ensures Leads(cfg, start, l) && Aligned(l) && l.wire == Sent(Ackreq, 2)
    ensures !l.rx.rx.selected && Finished(cfg, l.rx, env).rx.selected
    ensures |times| == LastAckreq(l) - l.wire.count
    ensures AllCross(cfg, l.(rx := Finished(cfg, l.rx, env)), times)
    ensures !AllMeet(cfg, l.(rx := Finished(cfg, l.rx, env)), times)
  {
    var other := OtherNumber(Word(cfg.decoderId));
    OtherNumberDiffers(Word(cfg.decoderId));
    var deselecting := PingArrives(cfg, start, resting, Zeros(32), other);
    var deselected := PingExecutes(cfg, start, deselecting, env, Zeros(32), other);
    var again := PhaseGoesOn(cfg, start, deselected, 1, TX_MIN_ACKREQ_BITS);
    var selecting := PingArrives(cfg, start, again, Zeros(32), Zeros(32));
    var second := PhaseGoesOn(cfg, start, selecting, 1, 2);
    l, times := SelectedLate(cfg, start, second, env);
  }

  lemma {:induction false} SelectedLate(cfg: Config, start: Track, second: Track, env: Environment)
    returns (l: Track, times: seq<nat>)
    requires cfg.Valid() && InPhase(cfg, start, second, 2) && second.rx.task == Idle && second.rx.rx.ring.len == 1
    requires second.rx.rx.ring.Front().Bytes() == PingPacket(Zeros(32), Zeros(32)) && !second.rx.rx.selected
    ensures Leads(cfg, start, l) && Aligned(l) && l.wire == Sent(Ackreq, 2)
    ensures !l.rx.rx.selected && Finished(cfg, l.rx, env).rx.selected
    ensures |times| == LastAckreq(l) - l.wire.count
    ensures AllCross(cfg, l.(rx := Finished(cfg, l.rx, env)), times)
    ensures !AllMeet(cfg, l.(rx := Finished(cfg, l.rx, env)), times)
  {
    PingRoundTrip(cfg, second.rx.rx.ring.Front(), Zeros(32), Zeros(32));
    LeadsFurther(cfg, start, second, Task(Start));
    l := Next(cfg, second, Task(Start));
    LeadsFurther(cfg, start, l, Cross(0));
    times := RestOfPhase(cfg, l.(rx := Finished(cfg, l.rx, env)), 2);
    LateSelectionMisaligns(cfg, l, env, times);
  }
}
