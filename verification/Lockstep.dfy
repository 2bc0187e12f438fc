/** Transmitter and receiver on the same track: both sides count ackreq bits at the same zero crossings. */
module Lockstep {
  import opened Bytes
  import opened Timing
  import opened Frame
  import opened Command
  import opened Receiver
  import opened ReceiverProofs
  import opened Interleaving
  import opened Acknowledge
  import T = Transmitter

  /** The bit whose duration is running out; `count` is its number within the ackreq phase, counted from 1. */
  datatype Wire = Nothing | Sent(bit: SendBit, count: nat)

  datatype Track = Track(tx: T.Tx, rx: System, wire: Wire)

  datatype TrackEvent = Cross(time: nat) | Request(request: T.Request) | Task(event: Event)

  const POWERED: Track := Track(T.INITIAL, INITIAL, Nothing)

  /** Waiting for the end of an ackreq bit other than the first. */
  predicate MidAckreq(wire: Wire) {
    wire.Sent? && wire.bit == Ackreq && wire.count >= 2
  }

  /** The decoder understands what is sent, requests are packets and valid settings,
      and no execution selects the decoder in the middle of an ackreq phase. */
  ghost predicate CanHappen(cfg: Config, l: Track, e: TrackEvent)
    requires cfg.Valid() && SystemInv(l.rx)
  {
    match e
    case Cross(time) =>
      l.wire.Sent? ==> Time2Bit(time, l.rx.rx.rate) == l.wire.bit && CanStep(l.rx, Crossing(time))
    case Request(Init(config)) => T.ValidConfig(config)
    case Request(SetTransferRate(_)) => true
    case Request(Send(bits)) => bits != [] && Ackreq !in bits
    case Task(event) =>
      && !event.Crossing?
      && (MidAckreq(l.wire) && Step(cfg, l.rx, event).rx.selected ==> l.rx.rx.selected)
  }

  /** A crossing, whatever the decoder takes the bit on the wire for. */
  ghost function AfterCross(cfg: Config, l: Track, time: nat): Track
    requires cfg.Valid() && SystemInv(l.rx) && (l.wire.Sent? ==> CanStep(l.rx, Crossing(time)))
  {
    var tx := T.AfterTransmit(l.tx);
    var bit := T.NextBit(l.tx);
    Track(tx,
          if l.wire.Sent? then Step(cfg, l.rx, Crossing(time)) else l.rx,
          Sent(bit, if bit == Ackreq then tx.ackreqCount else 0))
  }

  /** At a crossing the receiver takes the bit that just ended and the transmitter starts the next. */
  ghost function Next(cfg: Config, l: Track, e: TrackEvent): Track
    requires cfg.Valid() && SystemInv(l.rx) && CanHappen(cfg, l, e)
  {
    match e
    case Cross(time) => AfterCross(cfg, l, time)
    case Request(request) => l.(tx := T.Ask(l.tx, request).0)
    case Task(event) => l.(rx := Step(cfg, l.rx, event))
  }

  /** The transmitter's own bookkeeping. */
  ghost predicate TxInv(tx: T.Tx) {
    T.WellFormed(tx) && Ackreq !in tx.rest && (tx.rest != [] ==> tx.ackreqCount == 0)
  }

  ghost predicate Aligned(l: Track) {
    && TxInv(l.tx) && SystemInv(l.rx)
    && match l.wire
       case Nothing => l.tx.rest != [] || T.Idle(l.tx)
       case Sent(bit, count) =>
         if bit != Ackreq then l.tx.rest == [] && l.tx.ackreqCount < l.tx.cfg.numAckreq ==> l.tx.ackreqCount == 0
         else
           && count >= 1
           && (|| (l.tx.rest == [] && l.tx.ackreqCount == count < l.tx.cfg.numAckreq)
               || (count >= TX_MIN_ACKREQ_BITS && (l.tx.rest != [] || T.Idle(l.tx))))
           && (l.rx.rx.selected || count == 1 ==> l.rx.rx.ackreqCount == count - 1)
           && (!l.rx.rx.selected && l.rx.rx.ackreqCount != 0 ==> l.rx.task == Executed || l.rx.rx.ring.len == 0)
  }

  lemma PoweredAligned()
    ensures Aligned(POWERED)
  {
    InitialInv();
  }

  lemma {:induction false} CrossStaysAligned(cfg: Config, l: Track, time: nat)
    requires cfg.Valid() && Aligned(l) && CanHappen(cfg, l, Cross(time))
    ensures Aligned(Next(cfg, l, Cross(time)))
  {
    if l.wire.Sent? {
      StepKeepsInv(cfg, l.rx, Crossing(time));
      CountAfterBit(l.rx.rx, l.rx.history, l.wire.bit);
      BitKeepsSettings(l.rx.rx, l.wire.bit);
    }
  }

  lemma {:induction false} TaskStaysAligned(cfg: Config, l: Track, event: Event)
    requires cfg.Valid() && Aligned(l) && CanHappen(cfg, l, Task(event))
    ensures Aligned(Next(cfg, l, Task(event)))
  {
    StepKeepsInv(cfg, l.rx, event);
    if event.Body? && l.rx.task.Holding? {
      BodyFields(cfg, l.rx.rx.ring.slots[l.rx.task.index], event.env, l.rx.rx);
    }
  }

  lemma {:induction false} StaysAligned(cfg: Config, l: Track, e: TrackEvent)
    requires cfg.Valid() && Aligned(l) && CanHappen(cfg, l, e)
    ensures Aligned(Next(cfg, l, e))
  {
    match e {
      case Cross(time) => CrossStaysAligned(cfg, l, time);
      case Request(_) =>
      case Task(event) => TaskStaysAligned(cfg, l, event);
    }
  }

  /** The pulse the receiver gives at a crossing. */
  ghost function Pulse(l: Track): Channel {
    if l.wire.Sent? then PulseChannel(l.rx.rx, l.wire.bit) else Silent
  }

  /** Alignment: whenever the decoder pulses, the command station looks for that very channel at that crossing. */
  lemma {:induction false} PulseMeetsHook(l: Track)
    requires Aligned(l)
    ensures Pulse(l) == InChannel1 ==> T.Channel1(l.wire.count) in T.Hooks(l.tx) && 2 <= l.wire.count <= 4
    ensures Pulse(l) == InChannel2 ==> T.Channel2(l.wire.count) in T.Hooks(l.tx) && 6 <= l.wire.count <= 8
  {
    if Pulse(l) != Silent {
      var c := l.wire.count;
      assert l.rx.rx.ackreqCount + 1 == c;
      assert T.Hooks(l.tx)[0] == if T.IsChannel1(c) then T.Channel1(c) else T.Channel2(c);
    }
  }

  // ----- over whole runs

  ghost predicate AllHappen(cfg: Config, l: Track, events: seq<TrackEvent>)
    requires cfg.Valid() && Aligned(l)
    decreases |events|
  {
    events == [] ||
    (&& CanHappen(cfg, l, events[0])
     && (StaysAligned(cfg, l, events[0]); AllHappen(cfg, Next(cfg, l, events[0]), events[1..])))
  }

  ghost function RunTrack(cfg: Config, l: Track, events: seq<TrackEvent>): (t: Track)
    requires cfg.Valid() && Aligned(l) && AllHappen(cfg, l, events)
    ensures Aligned(t)
    decreases |events|
  {
    if events == [] then l
    else (StaysAligned(cfg, l, events[0]); RunTrack(cfg, Next(cfg, l, events[0]), events[1..]))
  }

  /** Over every run from power-up in which the decoder understands what is sent and is not selected in mid-phase, a
      pulse never falls on a reference bit, on bit 5 or after bit 8, and always meets its hook. */
  lemma {:induction false} EveryPulseMeetsItsHook(cfg: Config, events: seq<TrackEvent>)
    requires cfg.Valid() && (PoweredAligned(); AllHappen(cfg, POWERED, events))
    ensures var l := (PoweredAligned(); RunTrack(cfg, POWERED, events));
            && (Pulse(l) == InChannel1 ==> T.Channel1(l.wire.count) in T.Hooks(l.tx))
            && (Pulse(l) == InChannel2 ==> T.Channel2(l.wire.count) in T.Hooks(l.tx))
            && (Pulse(l) != Silent ==> T.IsChannel1(l.wire.count) || T.IsChannel2(l.wire.count))
  {
    PoweredAligned();
    PulseMeetsHook(RunTrack(cfg, POWERED, events));
  }

  // ----- a selection in mid-phase

  lemma {:induction false} CrossKeepsSystemInv(cfg: Config, l: Track, time: nat)
    requires cfg.Valid() && SystemInv(l.rx) && CanHappen(cfg, l, Cross(time))
    ensures SystemInv(Next(cfg, l, Cross(time)).rx)
  {
    if l.wire.Sent? { StepKeepsInv(cfg, l.rx, Crossing(time)); }
  }

  /** All crossings are understood, with nothing else going on. */
  ghost predicate AllCross(cfg: Config, l: Track, times: seq<nat>)
    requires cfg.Valid() && SystemInv(l.rx)
    decreases |times|
  {
    times == [] ||
    (&& CanHappen(cfg, l, Cross(times[0]))
     && (CrossKeepsSystemInv(cfg, l, times[0]); AllCross(cfg, Next(cfg, l, Cross(times[0])), times[1..])))
  }

  ghost predicate MeetsHook(l: Track) {
    && (Pulse(l) == InChannel1 ==> T.Channel1(l.wire.count) in T.Hooks(l.tx))
    && (Pulse(l) == InChannel2 ==> T.Channel2(l.wire.count) in T.Hooks(l.tx))
  }

  /** Every pulse of a run of crossings, and one right after it, meets its hook. */
  ghost predicate AllMeet(cfg: Config, l: Track, times: seq<nat>)
    requires cfg.Valid() && SystemInv(l.rx) && AllCross(cfg, l, times)
    decreases |times|
  {
    && MeetsHook(l)
    && (times != [] ==>
          (CrossKeepsSystemInv(cfg, l, times[0]); AllMeet(cfg, Next(cfg, l, Cross(times[0])), times[1..])))
  }

  /** The number of the last ackreq bit of the phase under way. */
  function LastAckreq(l: Track): nat
    requires l.wire.Sent?
  {
    if l.tx.rest == [] && l.tx.ackreqCount == l.wire.count then l.tx.cfg.numAckreq else l.wire.count
  }

  /** A phase of `last` bits, `lag` of which had passed when the decoder began to count; it counts the one on the wire
      as `own`. */
  ghost predicate Counting(l: Track, own: nat, lag: nat, last: nat) {
    && l.wire == Sent(Ackreq, own + lag) && own + lag <= last && TX_MIN_ACKREQ_BITS <= last
    && l.rx.rx.selected && l.rx.rx.ackreqCount + 1 == own
    && if own + lag < last then l.tx.rest == [] && l.tx.ackreqCount == own + lag && l.tx.cfg.numAckreq == last
       else T.Hooks(l.tx) == []
  }

  /** Whether a pulse at bit `own` of the decoder's count falls into the right channel of the transmitter's. */
  predicate RightPlace(own: nat, lag: nat, nack: bool, ack: bool) {
    && (nack && 2 <= own <= 4 ==> T.IsChannel1(own + lag))
    && (ack && 6 <= own <= 8 ==> T.IsChannel2(own + lag))
  }

  lemma {:induction false} MeetsInRightPlace(l: Track, own: nat, lag: nat, last: nat)
    requires Counting(l, own, lag, last)
    ensures MeetsHook(l) <==> RightPlace(own, lag, l.rx.rx.nack, l.rx.rx.ack)
  {
    var count := own + lag;
    assert Pulse(l) == PulseChannel(l.rx.rx, Ackreq);
    if count < last && (T.IsChannel1(count) || T.IsChannel2(count)) {
      assert T.Hooks(l.tx)[0] == if T.IsChannel1(count) then T.Channel1(count) else T.Channel2(count);
    }
    assert forall hook :: hook in T.Hooks(l.tx) && hook.Channel1? ==> T.IsChannel1(count);
    assert forall hook :: hook in T.Hooks(l.tx) && hook.Channel2? ==> T.IsChannel2(count);
  }

  /** One crossing later both sides have counted one bit. */
  lemma {:induction false} CountingGoesOn(cfg: Config, l: Track, time: nat, own: nat, lag: nat, last: nat)
    requires cfg.Valid() && SystemInv(l.rx) && Counting(l, own, lag, last) && own + lag < last
    requires CanHappen(cfg, l, Cross(time))
    ensures var m := Next(cfg, l, Cross(time));
            Counting(m, own + 1, lag, last) && m.rx.rx.nack == l.rx.rx.nack && m.rx.rx.ack == l.rx.rx.ack
  {
  }

  lemma {:induction false} AllMeetInRightPlaces(cfg: Config, l: Track, times: seq<nat>, own: nat, lag: nat, last: nat)
    requires cfg.Valid() && SystemInv(l.rx) && Counting(l, own, lag, last)
    requires AllCross(cfg, l, times) && |times| == last - lag - own
    ensures AllMeet(cfg, l, times)
       <==> forall j :: own <= j <= last - lag ==> RightPlace(j, lag, l.rx.rx.nack, l.rx.rx.ack)
    decreases |times|
  {
    MeetsInRightPlace(l, own, lag, last);
    if times != [] {
      CrossKeepsSystemInv(cfg, l, times[0]);
      CountingGoesOn(cfg, l, times[0], own, lag, last);
      AllMeetInRightPlaces(cfg, Next(cfg, l, Cross(times[0])), times[1..], own + 1, lag, last);
    }
  }

  /** Starting to count with `lag` bits gone by. */
  lemma {:induction false} LatePlaces(lag: nat, last: nat, nack: bool, ack: bool)
    requires lag < last && TX_MIN_ACKREQ_BITS <= last
    ensures (forall j :: 1 <= j <= last - lag ==> RightPlace(j, lag, nack, ack))
       <==> lag == 0 || ((nack ==> lag + 1 == last) && (ack ==> last < lag + 6))
  {
    if lag > 0 && ack && last >= lag + 6 {
      var j := if last >= lag + 8 then 8 else 6;
      assert !RightPlace(j, lag, nack, ack);
    }
    if lag > 0 && nack && lag + 1 < last {
      var j := if last >= lag + 4 then 4 else 2;
      assert !RightPlace(j, lag, nack, ack);
    }
  }

  /** The rest of an execution: its effect, then its packet leaves the queue. */
  ghost function Finished(cfg: Config, s: System, env: Environment): (t: System)
    requires cfg.Valid() && SystemInv(s)
    ensures SystemInv(t)
  {
    StepKeepsInv(cfg, s, Body(env));
    var u := Step(cfg, s, Body(env));
    StepKeepsInv(cfg, u, Pop);
    Step(cfg, u, Pop)
  }

  /** Only a ping selects, and it acknowledges itself. */
  lemma {:induction false} SelectionAcks(cfg: Config, s: System, env: Environment)
    requires cfg.Valid() && SystemInv(s) && !s.rx.selected && Finished(cfg, s, env).rx.selected
    ensures s.task.Holding? && Finished(cfg, s, env).rx.ack
    ensures Finished(cfg, s, env).rx.ackreqCount == s.rx.ackreqCount && Finished(cfg, s, env).rx.nack == s.rx.nack
  {
    if s.task.Holding? { BodyFields(cfg, s.rx.ring.slots[s.task.index], env, s.rx); }
  }

  /** A decoder selected in mid-phase takes the bit on the wire for the first. */
  lemma {:induction false} LateStart(cfg: Config, l: Track, env: Environment)
    requires cfg.Valid() && Aligned(l) && l.wire.Sent? && l.wire.bit == Ackreq
    requires !l.rx.rx.selected && Finished(cfg, l.rx, env).rx.selected
    ensures var m := l.(rx := Finished(cfg, l.rx, env));
            && l.wire.count >= 1
            && Counting(m, 1, l.wire.count - 1, LastAckreq(l)) && m.rx.rx.nack == l.rx.rx.nack && m.rx.rx.ack
  {
    SelectionAcks(cfg, l.rx, env);
    assert l.rx.rx.ackreqCount == 0;
  }

  lemma {:induction false} LateCounting(cfg: Config, l: Track, times: seq<nat>, lag: nat, last: nat)
    requires cfg.Valid() && SystemInv(l.rx) && Counting(l, 1, lag, last)
    requires AllCross(cfg, l, times) && |times| == last - lag - 1
    ensures AllMeet(cfg, l, times)
       <==> lag == 0 || ((l.rx.rx.nack ==> lag + 1 == last) && (l.rx.rx.ack ==> last < lag + 6))
  {
    AllMeetInRightPlaces(cfg, l, times, 1, lag, last);
    LatePlaces(lag, last, l.rx.rx.nack, l.rx.rx.ack);
  }

  /** Why a selection in mid-phase is excluded above: while ackreq bit `count` of `last` is on the wire, a ping that
      selects the decoder makes it count from there. Up to the end of the phase all its pulses still meet their hooks
      exactly if that bit was the first, or too few bits are left for a pulse: none for a decoder with a nack to give,
      at most four for any other. */
  lemma {:induction false} LateSelectionMisaligns(cfg: Config, l: Track, env: Environment, times: seq<nat>)
    requires cfg.Valid() && Aligned(l) && l.wire.Sent? && l.wire.bit == Ackreq
    requires !l.rx.rx.selected && Finished(cfg, l.rx, env).rx.selected
    requires AllCross(cfg, l.(rx := Finished(cfg, l.rx, env)), times) && |times| == LastAckreq(l) - l.wire.count
    ensures AllMeet(cfg, l.(rx := Finished(cfg, l.rx, env)), times)
       <==> || l.wire.count == 1
            || (if l.rx.rx.nack then l.wire.count == LastAckreq(l) else LastAckreq(l) < l.wire.count + 5)
  {
    var m := l.(rx := Finished(cfg, l.rx, env));
    LateStart(cfg, l, env);
    LateCounting(cfg, m, times, l.wire.count - 1, LastAckreq(l));
  }

  // ----- misread bits

  /** The pulse given at a crossing, whatever the bit is taken for. */
  ghost function Given(l: Track, time: nat): Channel {
    if l.wire.Sent? then PulseChannel(l.rx.rx, Time2Bit(time, l.rx.rx.rate)) else Silent
  }

  lemma {:induction false} AfterCrossKeepsSystemInv(cfg: Config, l: Track, time: nat)
    requires cfg.Valid() && SystemInv(l.rx) && (l.wire.Sent? ==> CanStep(l.rx, Crossing(time)))
    ensures SystemInv(AfterCross(cfg, l, time).rx)
    ensures AfterCross(cfg, l, time).rx.rx.rate == l.rx.rx.rate
  {
    if l.wire.Sent? {
      StepKeepsInv(cfg, l.rx, Crossing(time));
      BitKeepsSettings(l.rx.rx, Time2Bit(time, l.rx.rx.rate));
    }
  }

  /** A misread ackreq bit is not pulsed, and the decoder counts the next one as its first. */
  lemma {:induction false} MisreadStart(cfg: Config, l: Track, time: nat)
    requires cfg.Valid() && Aligned(l) && l.wire.Sent? && l.wire.bit == Ackreq && l.rx.rx.selected
    requires Time2Bit(time, l.rx.rx.rate) != Ackreq && CanStep(l.rx, Crossing(time)) && l.wire.count < LastAckreq(l)
    ensures Given(l, time) == Silent
    ensures var m := AfterCross(cfg, l, time);
            && l.wire.count >= 1 && Counting(m, 1, l.wire.count, LastAckreq(l))
            && (l.rx.rx.phase == AckReq ==> m.rx.rx.nack == l.rx.rx.nack && !m.rx.rx.ack)
  {
    var bit := Time2Bit(time, l.rx.rx.rate);
    CountAfterBit(l.rx.rx, l.rx.history, bit);
    BitKeepsSettings(l.rx.rx, bit);
  }

  /** Why misread bits are excluded above: from the next ackreq bit on the decoder counts behind the transmitter, and up
      to the end of the phase its pulses meet their hooks exactly if only one bit is left for a nack, and fewer than six
      for an ack. In the ackreq phase itself the ack is withdrawn, so only a nack goes astray. */
  lemma {:induction false} MisreadMisaligns(cfg: Config, l: Track, time: nat, times: seq<nat>)
    requires cfg.Valid() && Aligned(l) && l.wire.Sent? && l.wire.bit == Ackreq && l.rx.rx.selected
    requires Time2Bit(time, l.rx.rx.rate) != Ackreq && CanStep(l.rx, Crossing(time)) && l.wire.count < LastAckreq(l)
    requires |times| == LastAckreq(l) - l.wire.count - 1
    requires (AfterCrossKeepsSystemInv(cfg, l, time); AllCross(cfg, AfterCross(cfg, l, time), times))
    ensures Given(l, time) == Silent
    ensures var m := (AfterCrossKeepsSystemInv(cfg, l, time); AfterCross(cfg, l, time));
            AllMeet(cfg, m, times)
            <==> && (m.rx.rx.nack ==> l.wire.count + 1 == LastAckreq(l))
                 && (m.rx.rx.ack ==> LastAckreq(l) < l.wire.count + 6)
    ensures var m := (AfterCrossKeepsSystemInv(cfg, l, time); AfterCross(cfg, l, time));
            l.rx.rx.phase == AckReq ==>
              (AllMeet(cfg, m, times) <==> !l.rx.rx.nack || l.wire.count + 1 == LastAckreq(l))
  {
    AfterCrossKeepsSystemInv(cfg, l, time);
    MisreadStart(cfg, l, time);
    LateCounting(cfg, AfterCross(cfg, l, time), times, l.wire.count, LastAckreq(l));
  }

  /** The two ackreq durations that are misread at the decoder's own rate. */
  lemma {:induction false} SharedEndpointMisaligns(cfg: Config, l: Track, time: nat, times: seq<nat>)
    requires cfg.Valid() && Aligned(l) && l.wire.Sent? && l.wire.bit == Ackreq && l.rx.rx.selected
    requires (l.rx.rx.rate == 2 && time == 48) || (l.rx.rx.rate == 3 && time == 96)
    requires l.rx.rx.phase == AckReq && l.wire.count < LastAckreq(l)
    ensures TimingOf(l.rx.rx.rate).ackreqMin <= time <= TimingOf(l.rx.rx.rate).ackreqMax
    ensures CanStep(l.rx, Crossing(time))
    ensures var m := (AfterCrossKeepsSystemInv(cfg, l, time); AfterCross(cfg, l, time));
            AllCross(cfg, m, times) && |times| == LastAckreq(l) - l.wire.count - 1 ==>
              (AllMeet(cfg, m, times) <==> !l.rx.rx.nack || l.wire.count + 1 == LastAckreq(l))
  {
    SharedEndpointIsZero(time, l.rx.rx.rate);
    AfterCrossKeepsSystemInv(cfg, l, time);
    if AllCross(cfg, AfterCross(cfg, l, time), times) && |times| == LastAckreq(l) - l.wire.count - 1 {
      MisreadMisaligns(cfg, l, time, times);
    }
  }

  /** Crossings that find room, and none of which is pulsed. */
  ghost predicate AllSilent(cfg: Config, l: Track, times: seq<nat>)
    requires cfg.Valid() && SystemInv(l.rx)
    decreases |times|
  {
    times != [] && (l.wire.Sent? ==> CanStep(l.rx, Crossing(times[0]))) ==>
      && Given(l, times[0]) == Silent
      && (AfterCrossKeepsSystemInv(cfg, l, times[0]); AllSilent(cfg, AfterCross(cfg, l, times[0]), times[1..]))
  }

  lemma {:induction false} UnheardIsSilent(cfg: Config, l: Track, times: seq<nat>)
    requires cfg.Valid() && SystemInv(l.rx)
    requires forall i :: 0 <= i < |times| ==> Time2Bit(times[i], l.rx.rx.rate) != Ackreq
    ensures AllSilent(cfg, l, times)
    decreases |times|
  {
    if times != [] && (l.wire.Sent? ==> CanStep(l.rx, Crossing(times[0]))) {
      AfterCrossKeepsSystemInv(cfg, l, times[0]);
      UnheardIsSilent(cfg, AfterCross(cfg, l, times[0]), times[1..]);
    }
  }

  /** A rate change executed in mid-phase: while the transmitter goes on at the old rate, the decoder understands every
      ackreq bit, and stays aligned, if the old rate was fallback or the change is from medium to fast; it gives no
      pulse at all in the rest of the phase if the change is any other than that and from fast to medium. */
  lemma {:induction false} RateChangeInPhase(cfg: Config, l: Track, env: Environment, times: seq<nat>)
    requires cfg.Valid() && Aligned(l) && l.rx.rx.selected && l.rx.task.Holding?
    requires Finished(cfg, l.rx, env).rx.rate != l.rx.rx.rate
    requires forall i :: 0 <= i < |times| ==> InWindow(times[i], Ackreq, l.rx.rx.rate)
    ensures var m := l.(rx := Finished(cfg, l.rx, env));
            var before, after := l.rx.rx.rate, m.rx.rx.rate;
            && Aligned(m)
            && (before == FALLBACK || (before == 2 && after == 1) ==>
                  forall i :: 0 <= i < |times| ==> Time2Bit(times[i], after) == Ackreq)
            && (before != FALLBACK && !(before == 2 && after == 1) && !(before == 1 && after == 2)
                ==> AllSilent(cfg, m, times))
  {
    var m := l.(rx := Finished(cfg, l.rx, env));
    OnlyRateChanges(cfg, l.rx, env);
    AckreqAcrossRates(l.rx.rx.rate, m.rx.rx.rate);
    if forall i :: 0 <= i < |times| ==> Time2Bit(times[i], m.rx.rx.rate) != Ackreq { UnheardIsSilent(cfg, m, times); }
  }

  /** A command that changes the rate changes neither selection nor count. */
  lemma {:induction false} OnlyRateChanges(cfg: Config, s: System, env: Environment)
    requires cfg.Valid() && SystemInv(s) && s.task.Holding? && Finished(cfg, s, env).rx.rate != s.rx.rate
    ensures var t := Finished(cfg, s, env);
            t.rx.selected == s.rx.selected && t.rx.ackreqCount == s.rx.ackreqCount
  {
    var packet := s.rx.ring.slots[s.task.index];
    BodyFields(cfg, packet, env, s.rx);
    RateChangeKeepsSelection(cfg, packet, env, s.rx);
    FinishedIsBody(cfg, s, env);
  }

  lemma FinishedIsBody(cfg: Config, s: System, env: Environment)
    requires cfg.Valid() && SystemInv(s) && s.task.Holding?
    ensures var body := ExecuteBody(cfg, s.rx.ring.slots[s.task.index], env, s.rx);
            var t := Finished(cfg, s, env);
            t.rx.rate == body.rate && t.rx.selected == body.selected && t.rx.ackreqCount == body.ackreqCount
  {
  }

  lemma RateChangeKeepsSelection(cfg: Config, packet: Packet, env: Environment, s: Rx)
    requires cfg.Valid() && packet.Valid()
    ensures ExecuteBody(cfg, packet, env, s).rate != s.rate ==> ExecuteBody(cfg, packet, env, s).selected == s.selected
  {
    SelectedBodyKeepsSelection(cfg, packet.Code(), packet.Parameter(), env, s);
  }

  lemma SelectedBodyKeepsSelection(cfg: Config, cmd: Command, parameter: nat, env: Environment, s: Rx)
    requires cfg.Valid()
    ensures SelectedBody(cfg, cmd, parameter, env, s).selected == s.selected
  {
  }
}
