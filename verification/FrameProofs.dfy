/** What a transmitted frame does to any receiver that hears it. */
module FrameProofs {
  import opened Bytes
  import opened Crc
  import opened CrcProofs
  import opened Timing
  import opened Frame
  import opened Command
  import opened Receiver
  import opened ReceiverProofs
  import opened Interleaving
  import opened Packets

  /** A preamble long enough for a receiver that loses its first bit to the end of the ackreq phase. */
  const HEARD_PREAMBLE_BITS: nat := RX_MIN_PREAMBLE_BITS + 1

  /** The bits of a frame up to its last data bit. */
  function UpToEndBit(n: nat, bytes: seq<Byte>): seq<SendBit> {
    Repeat(One, n) + DataBits(bytes)
  }

  /** The receiver after the first `k` bits of a frame. */
  ghost predicate At(s: Rx, h: seq<SendBit>, n: nat, bytes: seq<Byte>, k: nat) {
    && Inv(s, h)
    && k <= n + 9 * |bytes|
    && if k == 0 then s.phase == AckReq || s.phase == Preamble
       else if k <= n then s.phase == Preamble && k - 1 <= s.bitCount
       else (s.phase == Data || s.phase == EndBit) && h == DataBits(bytes)[..k - n]
  }

  /** One more bit of the frame finds room, moves the receiver one place on and queues nothing. */
  ghost predicate GoesOn(s: Rx, h: seq<SendBit>, n: nat, bytes: seq<Byte>, k: nat, bit: SendBit) {
    && CanReceive(s, bit)
    && At(ReceiveBit(s, bit), NextHistory(s, h, bit), n, bytes, k + 1)
    && !Queues(s, bit)
  }

  lemma {:induction false} PreambleGoesOn(s: Rx, h: seq<SendBit>, n: nat, bytes: seq<Byte>, k: nat)
    requires At(s, h, n, bytes, k) && k < n
    ensures GoesOn(s, h, n, bytes, k, One)
  {
    StepInv(s, h, One);
  }

  lemma {:induction false} StartBitGoesOn(s: Rx, h: seq<SendBit>, n: nat, bytes: seq<Byte>, k: nat)
    requires At(s, h, n, bytes, k) && k == n >= HEARD_PREAMBLE_BITS && bytes != []
    ensures GoesOn(s, h, n, bytes, k, Zero)
  {
    StepInv(s, h, Zero);
    DataBitsAt(bytes, 0);
    assert DataBits(bytes)[..1] == [Zero];
  }

  /** Mid-frame the slot is never full, and between bytes the next bit is a start bit. */
  lemma {:induction false} RoomInFrame(s: Rx, h: seq<SendBit>, bytes: seq<Byte>, m: nat)
    requires Inv(s, h) && (s.phase == Data || s.phase == EndBit)
    requires m < 9 * |bytes| && h == DataBits(bytes)[..m] && |bytes| <= MAX_PACKET_SIZE
    ensures s.ring.End().size < MAX_PACKET_SIZE
    ensures DataBits(bytes)[m] == Zero || (DataBits(bytes)[m] == One && s.phase == Data)
  {
    DataBitsAt(bytes, m);
    HistoryLength(s, h);
  }

  lemma {:induction false} DataBitGoesOn(s: Rx, h: seq<SendBit>, n: nat, bytes: seq<Byte>, k: nat)
    requires n < k < n + 9 * |bytes| && At(s, h, n, bytes, k)
    requires |bytes| <= MAX_PACKET_SIZE
    ensures GoesOn(s, h, n, bytes, k, DataBits(bytes)[k - n])
  {
    var bit := DataBits(bytes)[k - n];
    RoomInFrame(s, h, bytes, k - n);
    assert CanReceive(s, bit);
    StepInv(s, h, bit);
    DataGoesOn(s, h, bit);
    TakeOneMore(DataBits(bytes), k - n);
  }

  lemma TakeOneMore(bits: seq<SendBit>, m: nat)
    requires m < |bits|
    ensures bits[..m + 1] == bits[..m] + [bits[m]]
  {
  }

  lemma {:induction false} FrameBitAt(n: nat, bytes: seq<Byte>, k: nat)
    requires k < n + 9 * |bytes|
    ensures UpToEndBit(n, bytes)[k] == if k < n then One else DataBits(bytes)[k - n]
    ensures k == n ==> UpToEndBit(n, bytes)[k] == Zero
  {
    if k == n { DataBitsAt(bytes, 0); }
  }

  lemma {:induction false} FrameGoesOn(s: Rx, h: seq<SendBit>, n: nat, bytes: seq<Byte>, k: nat)
    requires At(s, h, n, bytes, k) && k < n + 9 * |bytes|
    requires n >= HEARD_PREAMBLE_BITS && |bytes| <= MAX_PACKET_SIZE
    ensures GoesOn(s, h, n, bytes, k, UpToEndBit(n, bytes)[k])
  {
    FrameBitAt(n, bytes, k);
    if k < n {
      PreambleGoesOn(s, h, n, bytes, k);
    } else if k == n {
      StartBitGoesOn(s, h, n, bytes, k);
    } else {
      DataBitGoesOn(s, h, n, bytes, k);
    }
  }

  /** After the last data bit the slot holds exactly the frame's bytes. */
  lemma {:induction false} AtEnd(s: Rx, h: seq<SendBit>, n: nat, bytes: seq<Byte>)
    requires At(s, h, n, bytes, n + 9 * |bytes|) && bytes != []
    ensures s.phase == EndBit && s.ring.End().Bytes() == bytes && s.nack
  {
    HistoryLength(s, h);
    assert DataBits(bytes)[..9 * |bytes|] == DataBits(bytes);
    DataBitsInjective(s.ring.End().Bytes(), bytes);
  }

  // ----- whole frames, with execution going on in between

  /** The zero crossings among the events are classified, one by one, as the given bits. */
  ghost predicate Hears(cfg: Config, s: System, events: seq<Event>, bits: seq<SendBit>)
    requires cfg.Valid() && SystemInv(s)
    decreases |events|
  {
    if events == [] then bits == []
    else
      && (events[0].Crossing? ==> bits != [] && Time2Bit(events[0].time, s.rx.rate) == bits[0])
      && (CanStep(s, events[0]) ==>
            (StepKeepsInv(cfg, s, events[0]);
             Hears(cfg, Step(cfg, s, events[0]), events[1..], if events[0].Crossing? then bits[1..] else bits)))
  }

  /** An ackreq bit puts every receiver, whatever it was doing, at the start of the next frame. */
  lemma {:induction false} AckreqSynchronises(cfg: Config, s: System, time: nat, n: nat, bytes: seq<Byte>)
    requires cfg.Valid() && SystemInv(s) && Time2Bit(time, s.rx.rate) == Ackreq
    ensures CanStep(s, Crossing(time))
    ensures var t := Step(cfg, s, Crossing(time));
            At(t.rx, t.history, n, bytes, 0) && t.received == s.received
  {
    StepInv(s.rx, s.history, Ackreq);
  }

  lemma {:induction false} TaskKeepsLine(cfg: Config, s: System, e: Event)
    requires cfg.Valid() && SystemInv(s) && !e.Crossing?
    ensures var t := Step(cfg, s, e);
            && t.rx.phase == s.rx.phase && t.rx.bitCount == s.rx.bitCount
            && t.history == s.history && t.received == s.received
  {
    if e.Body? && s.task.Holding? {
      BodyFields(cfg, s.rx.ring.slots[s.task.index], e.env, s.rx);
    }
  }

  /** Executing packets meanwhile does not disturb the frame being received. */
  lemma {:induction false} TaskKeepsPlace(cfg: Config, s: System, e: Event, n: nat, bytes: seq<Byte>, k: nat)
    requires cfg.Valid() && SystemInv(s) && !e.Crossing?
    requires At(s.rx, s.history, n, bytes, k)
    ensures At(Step(cfg, s, e).rx, Step(cfg, s, e).history, n, bytes, k)
    ensures Step(cfg, s, e).received == s.received
  {
    StepKeepsInv(cfg, s, e);
    TaskKeepsLine(cfg, s, e);
  }

  /** One zero crossing of the frame. */
  lemma {:induction false} CrossingMovesOn(cfg: Config, s: System, time: nat, n: nat, bytes: seq<Byte>, k: nat)
    requires cfg.Valid() && SystemInv(s) && At(s.rx, s.history, n, bytes, k) && k < n + 9 * |bytes|
    requires n >= HEARD_PREAMBLE_BITS && |bytes| <= MAX_PACKET_SIZE
    requires Time2Bit(time, s.rx.rate) == UpToEndBit(n, bytes)[k]
    ensures CanStep(s, Crossing(time))
    ensures var t := Step(cfg, s, Crossing(time));
            SystemInv(t) && At(t.rx, t.history, n, bytes, k + 1) && t.received == s.received
  {
    FrameGoesOn(s.rx, s.history, n, bytes, k);
    StepKeepsInv(cfg, s, Crossing(time));
  }

  /** A run within the buffer's bounds that ends with exactly the frame's bytes in the slot and nothing new received. */
  ghost predicate Fills(cfg: Config, s: System, events: seq<Event>, bytes: seq<Byte>)
    requires cfg.Valid() && SystemInv(s)
  {
    && Bounded(cfg, s, events)
    && var t := Run(cfg, s, events);
       && t.rx.ring.Valid() && t.rx.phase == EndBit && t.rx.ring.End().Bytes() == bytes && t.rx.nack
       && t.received == s.received
  }

  lemma FillsFirst(cfg: Config, s: System, events: seq<Event>, bytes: seq<Byte>)
    requires cfg.Valid() && SystemInv(s) && events != [] && CanStep(s, events[0])
    requires Step(cfg, s, events[0]).received == s.received
    requires (StepKeepsInv(cfg, s, events[0]); Fills(cfg, Step(cfg, s, events[0]), events[1..], bytes))
    ensures Fills(cfg, s, events, bytes)
  {
    StepKeepsInv(cfg, s, events[0]);
  }

  lemma HearsRest(cfg: Config, s: System, events: seq<Event>, bits: seq<SendBit>)
    requires cfg.Valid() && SystemInv(s) && events != [] && CanStep(s, events[0]) && Hears(cfg, s, events, bits)
    ensures events[0].Crossing? ==> bits != [] && Time2Bit(events[0].time, s.rx.rate) == bits[0]
    ensures (StepKeepsInv(cfg, s, events[0]);
             Hears(cfg, Step(cfg, s, events[0]), events[1..], if events[0].Crossing? then bits[1..] else bits))
  {
    StepKeepsInv(cfg, s, events[0]);
  }

  /** The decoder stands at bit `k` of a frame, and its bits from there on are what it is about to hear. */
  ghost predicate HearsFrom(cfg: Config, s: System, events: seq<Event>, n: nat, bytes: seq<Byte>, k: nat)
    requires cfg.Valid() && SystemInv(s)
  {
    At(s.rx, s.history, n, bytes, k) && Hears(cfg, s, events, UpToEndBit(n, bytes)[k..])
  }

  lemma {:induction false} BitIsHeard(cfg: Config, s: System, events: seq<Event>, n: nat, bytes: seq<Byte>, k: nat)
    requires cfg.Valid() && SystemInv(s) && HearsFrom(cfg, s, events, n, bytes, k)
    requires events != [] && events[0].Crossing?
    requires n >= HEARD_PREAMBLE_BITS && |bytes| <= MAX_PACKET_SIZE
    ensures CanStep(s, events[0]) && Step(cfg, s, events[0]).received == s.received
    ensures (StepKeepsInv(cfg, s, events[0]); HearsFrom(cfg, Step(cfg, s, events[0]), events[1..], n, bytes, k + 1))
  {
    assert k < n + 9 * |bytes| && Time2Bit(events[0].time, s.rx.rate) == UpToEndBit(n, bytes)[k];
    CrossingMovesOn(cfg, s, events[0].time, n, bytes, k);
    HearsRest(cfg, s, events, UpToEndBit(n, bytes)[k..]);
    assert UpToEndBit(n, bytes)[k..][1..] == UpToEndBit(n, bytes)[k + 1..];
  }

  lemma {:induction false} TaskIsNotHeard(cfg: Config, s: System, events: seq<Event>, n: nat, bytes: seq<Byte>, k: nat)
    requires cfg.Valid() && SystemInv(s) && HearsFrom(cfg, s, events, n, bytes, k)
    requires events != [] && !events[0].Crossing?
    ensures Step(cfg, s, events[0]).received == s.received
    ensures (StepKeepsInv(cfg, s, events[0]); HearsFrom(cfg, Step(cfg, s, events[0]), events[1..], n, bytes, k))
  {
    TaskKeepsPlace(cfg, s, events[0], n, bytes, k);
    HearsRest(cfg, s, events, UpToEndBit(n, bytes)[k..]);
  }

  /** A frame heard from its first bit on never overruns the buffer, and its last data bit leaves exactly its bytes in
      the slot. */
  lemma {:induction false} FrameFillsSlot(
    cfg: Config, s: System, events: seq<Event>, n: nat, bytes: seq<Byte>, k: nat)
    requires cfg.Valid() && SystemInv(s)
    requires n >= HEARD_PREAMBLE_BITS && 0 < |bytes| <= MAX_PACKET_SIZE
    requires HearsFrom(cfg, s, events, n, bytes, k)
    ensures Fills(cfg, s, events, bytes)
    decreases |events|
  {
    if events == [] {
      assert UpToEndBit(n, bytes)[k..] == [];
      AtEnd(s.rx, s.history, n, bytes);
    } else {
      var crossing := events[0].Crossing?;
      if crossing { BitIsHeard(cfg, s, events, n, bytes, k); } else { TaskIsNotHeard(cfg, s, events, n, bytes, k); }
      StepKeepsInv(cfg, s, events[0]);
      FrameFillsSlot(cfg, Step(cfg, s, events[0]), events[1..], n, bytes, if crossing then k + 1 else k);
      FillsFirst(cfg, s, events, bytes);
    }
  }

  lemma {:induction false} SoundIsCrcClear(s: Rx, h: seq<SendBit>)
    requires Inv(s, h) && s.phase == EndBit && s.ring.End().size >= 4
    ensures CrcClear(s) == Sound(s.ring.End().Bytes())
  {
    var slot := s.ring.End();
    assert CommandOf(slot.buffer) == CommandOf(slot.Bytes());
  }

  /** The end bit queues the packet iff it is sound and no other packet waits. */
  lemma {:induction false} EndBitQueues(cfg: Config, s: System, time: nat)
    requires cfg.Valid() && SystemInv(s) && s.rx.phase == EndBit && s.rx.ring.End().size >= 4
    requires Time2Bit(time, s.rx.rate) == One
    ensures CanStep(s, Crossing(time))
    ensures var bytes := s.rx.ring.End().Bytes();
            Step(cfg, s, Crossing(time)).received
            == s.received + if Sound(bytes) && s.rx.ring.len == 0 then [bytes] else []
  {
    SoundIsCrcClear(s.rx, s.history);
  }

  /** Every duration within the tolerance window of the bit sent at `rate`. */
  ghost predicate Timed(events: seq<Event>, bits: seq<SendBit>, rate: Rate)
    decreases |events|
  {
    if events == [] then bits == []
    else if events[0].Crossing? then
      bits != [] && InWindow(events[0].time, bits[0], rate) && Timed(events[1..], bits[1..], rate)
    else Timed(events[1..], bits, rate)
  }

  /** The receiver keeps its transfer rate throughout. */
  ghost predicate Steady(cfg: Config, s: System, events: seq<Event>, rate: Rate)
    requires cfg.Valid() && SystemInv(s)
    decreases |events|
  {
    && s.rx.rate == rate
    && (events != [] && CanStep(s, events[0]) ==>
          (StepKeepsInv(cfg, s, events[0]); Steady(cfg, Step(cfg, s, events[0]), events[1..], rate)))
  }

  /** Jitter within tolerance is understood at the receiver's own rate, and at fallback whatever its rate becomes. */
  lemma {:induction false} JitterIsHeard(cfg: Config, s: System, events: seq<Event>, bits: seq<SendBit>, rate: Rate)
    requires cfg.Valid() && SystemInv(s)
    requires Timed(events, bits, rate)
    requires rate == FALLBACK || Steady(cfg, s, events, rate)
    ensures Hears(cfg, s, events, bits)
    decreases |events|
  {
    if events != [] {
      var e := events[0];
      if e.Crossing? { ClassifiesExactly(e.time, bits[0], s.rx.rate); }
      if CanStep(s, e) {
        StepKeepsInv(cfg, s, e);
        JitterIsHeard(cfg, Step(cfg, s, e), events[1..], if e.Crossing? then bits[1..] else bits, rate);
      }
    }
  }

  /** The wire round trip: from any state, one ackreq bit and then a jittered frame leave exactly its bytes in the
      slot. */
  lemma {:induction false} WireRoundTrip(
    cfg: Config, s: System, ackreq: nat, events: seq<Event>, n: nat, bytes: seq<Byte>, rate: Rate)
    requires cfg.Valid() && SystemInv(s)
    requires Time2Bit(ackreq, s.rx.rate) == Ackreq
    requires n >= TX_MIN_PREAMBLE_BITS && 4 <= |bytes| <= MAX_PACKET_SIZE
    requires Timed(events, UpToEndBit(n, bytes), rate)
    requires CanStep(s, Crossing(ackreq)) ==>
               (StepKeepsInv(cfg, s, Crossing(ackreq));
                rate == FALLBACK || Steady(cfg, Step(cfg, s, Crossing(ackreq)), events, rate))
    ensures Bounded(cfg, s, [Crossing(ackreq)] + events)
    ensures var t := Run(cfg, s, [Crossing(ackreq)] + events);
            && SystemInv(t)
            && t.rx.phase == EndBit && t.rx.ring.End().Bytes() == bytes && t.received == s.received
            && forall time :: Time2Bit(time, t.rx.rate) == One ==>
                 && CanStep(t, Crossing(time))
                 && Step(cfg, t, Crossing(time)).received
                    == s.received + if Sound(bytes) && t.rx.ring.len == 0 then [bytes] else []
  {
    var all := [Crossing(ackreq)] + events;
    AckreqSynchronises(cfg, s, ackreq, n, bytes);
    StepKeepsInv(cfg, s, Crossing(ackreq));
    var u := Step(cfg, s, Crossing(ackreq));
    JitterIsHeard(cfg, u, events, UpToEndBit(n, bytes), rate);
    assert UpToEndBit(n, bytes)[0..] == UpToEndBit(n, bytes);
    FrameFillsSlot(cfg, u, events, n, bytes, 0);
    assert all[1..] == events;
    var t := Run(cfg, s, all);
    assert t == Run(cfg, u, events);
    forall time | Time2Bit(time, t.rx.rate) == One
      ensures CanStep(t, Crossing(time))
      ensures Step(cfg, t, Crossing(time)).received
              == s.received + if Sound(bytes) && t.rx.ring.len == 0 then [bytes] else []
    {
      EndBitQueues(cfg, t, time);
    }
  }
}
