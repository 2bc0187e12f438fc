/** Both ends joined: a packet handed to an idle transmitter arrives in the queue of a listening decoder. */
module Link {
  import opened Bytes
  import opened Timing
  import opened Frame
  import opened Command
  import opened Packets
  import opened Receiver
  import opened ReceiverProofs
  import opened Interleaving
  import opened FrameProofs
  import opened TransferRates
  import opened Lockstep
  import T = Transmitter

  /** The track after a run of crossings. */
  ghost function Crossed(cfg: Config, l: Track, times: seq<nat>): (t: Track)
    requires cfg.Valid() && SystemInv(l.rx) && AllCross(cfg, l, times)
    ensures SystemInv(t.rx)
    decreases |times|
  {
    if times == [] then l
    else (CrossKeepsSystemInv(cfg, l, times[0]); Crossed(cfg, Next(cfg, l, Cross(times[0])), times[1..]))
  }

  /** Nothing to execute, and not in the middle of what it takes for a packet unless an ackreq bit is about to end
      that. */
  ghost predicate Listening(l: Track) {
    && SystemInv(l.rx) && l.rx.task == Idle && l.rx.rx.ring.len == 0
    && match l.wire
       case Nothing => l.rx.rx.phase == Preamble || l.rx.rx.phase == AckReq
       case Sent(bit, _) => bit == Ackreq || (bit == One && (l.rx.rx.phase == Preamble || l.rx.rx.phase == AckReq))
  }

  /** Bit `k` of a packet is on the wire, the decoder has taken all before it, the transmitter holds all after it. */
  ghost predicate Underway(l: Track, n: nat, bytes: seq<Byte>, k: nat) {
    && SystemInv(l.rx) && l.rx.task == Idle && l.rx.rx.ring.len == 0
    && bytes != [] && k < |PacketBits(n, bytes)|
    && l.wire == Sent(PacketBits(n, bytes)[k], 0)
    && l.tx.rest == PacketBits(n, bytes)[k + 1..] && l.tx.ackreqCount == 0 && l.tx.cfg.numAckreq > 0
    && At(l.rx.rx, l.rx.history, n, bytes, k)
  }

  /** What sending and receiving leaves alone. */
  ghost predicate SameSession(l: Track, m: Track) {
    && m.tx.cfg == l.tx.cfg && m.tx.rate == l.tx.rate
    && m.rx.task == l.rx.task && m.rx.executed == l.rx.executed
    && m.rx.rx.rate == l.rx.rx.rate && m.rx.rx.selected == l.rx.rx.selected
  }

  /** The packet is received and the first ackreq bit is on the wire. */
  ghost predicate Delivered(l: Track, m: Track, bytes: seq<Byte>) {
    && m.rx.received == l.rx.received + [bytes]
    && m.wire == Sent(Ackreq, 1) && m.tx.rest == [] && m.tx.ackreqCount == 1
    && SameSession(l, m)
  }

  lemma PacketBitAt(n: nat, bytes: seq<Byte>, k: nat)
    requires bytes != [] && k <= n + 9 * |bytes|
    ensures |PacketBits(n, bytes)| == n + 9 * |bytes| + 1
    ensures PacketBits(n, bytes)[k] == if k < n + 9 * |bytes| then UpToEndBit(n, bytes)[k] else One
    ensures PacketBits(n, bytes)[k] != Ackreq
  {
    if n <= k < n + 9 * |bytes| { DataBitsAt(bytes, k - n); }
  }

  /** The bit before the packet leaves a listening decoder ready for the packet's first bit. */
  lemma {:induction false} LastBitEnds(cfg: Config, s: System, time: nat, bit: SendBit)
    requires cfg.Valid() && SystemInv(s) && s.task == Idle && s.rx.ring.len == 0
    requires Time2Bit(time, s.rx.rate) == bit
    requires bit == Ackreq || (bit == One && (s.rx.phase == Preamble || s.rx.phase == AckReq))
    ensures CanStep(s, Crossing(time))
    ensures var t := Step(cfg, s, Crossing(time));
            && SystemInv(t) && t.task == Idle && t.rx.ring.len == 0
            && t.received == s.received && t.executed == s.executed
            && t.rx.rate == s.rx.rate && t.rx.selected == s.rx.selected
            && (t.rx.phase == Preamble || t.rx.phase == AckReq)
  {
    StepKeepsInv(cfg, s, Crossing(time));
    BitKeepsSettings(s.rx, bit);
    assert !Queues(s.rx, bit);
  }

  /** The bit before the packet ends, its first bit starts. */
  lemma {:induction false} PacketStarts(cfg: Config, l: Track, first: nat, n: nat, bytes: seq<Byte>)
    requires cfg.Valid() && Listening(l) && bytes != [] && l.tx.rest == PacketBits(n, bytes)
    requires l.tx.ackreqCount == 0 && l.tx.cfg.numAckreq > 0
    requires l.wire.Sent? ==> Time2Bit(first, l.rx.rx.rate) == l.wire.bit
    ensures CanHappen(cfg, l, Cross(first))
    ensures var m := Next(cfg, l, Cross(first));
            Underway(m, n, bytes, 0) && m.rx.received == l.rx.received && SameSession(l, m)
  {
    PacketBitAt(n, bytes, 0);
    if l.wire.Sent? { LastBitEnds(cfg, l.rx, first, l.wire.bit); }
  }

  /** One bit further. */
  lemma {:induction false} PacketMovesOn(cfg: Config, l: Track, time: nat, n: nat, bytes: seq<Byte>, k: nat)
    requires cfg.Valid() && Underway(l, n, bytes, k) && k < n + 9 * |bytes|
    requires n >= HEARD_PREAMBLE_BITS && |bytes| <= MAX_PACKET_SIZE
    requires Time2Bit(time, l.rx.rx.rate) == PacketBits(n, bytes)[k]
    ensures CanHappen(cfg, l, Cross(time))
    ensures var m := Next(cfg, l, Cross(time));
            Underway(m, n, bytes, k + 1) && m.rx.received == l.rx.received && SameSession(l, m)
  {
    PacketBitAt(n, bytes, k);
    PacketBitAt(n, bytes, k + 1);
    CrossingMovesOn(cfg, l.rx, time, n, bytes, k);
    FrameGoesOn(l.rx.rx, l.rx.history, n, bytes, k);
    BitKeepsSettings(l.rx.rx, Time2Bit(time, l.rx.rx.rate));
    assert PacketBits(n, bytes)[k + 1..][1..] == PacketBits(n, bytes)[k + 2..];
  }

  /** The end bit queues the packet. */
  lemma {:induction false} EndBitTaken(cfg: Config, s: System, time: nat, n: nat, bytes: seq<Byte>)
    requires cfg.Valid() && SystemInv(s) && s.rx.ring.len == 0 && |bytes| >= 4 && Sound(bytes)
    requires At(s.rx, s.history, n, bytes, n + 9 * |bytes|) && Time2Bit(time, s.rx.rate) == One
    ensures CanStep(s, Crossing(time))
    ensures var t := Step(cfg, s, Crossing(time));
            && t.received == s.received + [bytes] && t.executed == s.executed && t.task == s.task
            && t.rx.rate == s.rx.rate && t.rx.selected == s.rx.selected
  {
    AtEnd(s.rx, s.history, n, bytes);
    EndBitQueues(cfg, s, time);
    BitKeepsSettings(s.rx, One);
  }

  lemma {:induction false} PacketEnds(cfg: Config, l: Track, time: nat, n: nat, bytes: seq<Byte>)
    requires cfg.Valid() && |bytes| >= 4 && Underway(l, n, bytes, n + 9 * |bytes|) && Sound(bytes)
    requires Time2Bit(time, l.rx.rx.rate) == One
    ensures CanHappen(cfg, l, Cross(time))
    ensures Delivered(l, Next(cfg, l, Cross(time)), bytes)
  {
    PacketBitAt(n, bytes, n + 9 * |bytes|);
    EndBitTaken(cfg, l.rx, time, n, bytes);
    EndBitSent(cfg, l, time, bytes);
  }

  /** Behind the end bit the transmitter starts with the ackreq bits. */
  lemma {:induction false} EndBitSent(cfg: Config, l: Track, time: nat, bytes: seq<Byte>)
    requires cfg.Valid() && SystemInv(l.rx) && CanHappen(cfg, l, Cross(time))
    requires l.wire == Sent(One, 0) && l.tx.rest == [] && l.tx.ackreqCount == 0 && l.tx.cfg.numAckreq > 0
    requires var t := Step(cfg, l.rx, Crossing(time));
             && t.received == l.rx.received + [bytes] && t.executed == l.rx.executed && t.task == l.rx.task
             && t.rx.rate == l.rx.rx.rate && t.rx.selected == l.rx.rx.selected
    ensures Delivered(l, Next(cfg, l, Cross(time)), bytes)
  {
  }

  lemma CrossedFirst(cfg: Config, l: Track, times: seq<nat>)
    requires cfg.Valid() && SystemInv(l.rx) && times != [] && CanHappen(cfg, l, Cross(times[0]))
    requires (CrossKeepsSystemInv(cfg, l, times[0]); AllCross(cfg, Next(cfg, l, Cross(times[0])), times[1..]))
    ensures AllCross(cfg, l, times)
    ensures (CrossKeepsSystemInv(cfg, l, times[0]);
             Crossed(cfg, l, times) == Crossed(cfg, Next(cfg, l, Cross(times[0])), times[1..]))
  {
    CrossKeepsSystemInv(cfg, l, times[0]);
  }

  /** The receiver takes the durations for the bits of a packet from bit `k` on. */
  ghost predicate Understood(times: seq<nat>, n: nat, bytes: seq<Byte>, k: nat, receiver: Rate) {
    && k + |times| == |PacketBits(n, bytes)|
    && forall i :: 0 <= i < |times| ==> Time2Bit(times[i], receiver) == PacketBits(n, bytes)[k + i]
  }

  lemma {:induction false} WindowsAreUnderstood(times: seq<nat>, n: nat, bytes: seq<Byte>, rate: Rate, receiver: Rate)
    requires InWindows(times, PacketBits(n, bytes), rate) && (rate == receiver || rate == FALLBACK)
    ensures Understood(times, n, bytes, 0, receiver)
  {
    forall i | 0 <= i < |times| ensures Time2Bit(times[i], receiver) == PacketBits(n, bytes)[0 + i] {
      ClassifiesExactly(times[i], PacketBits(n, bytes)[i], receiver);
    }
  }

  lemma {:induction false} UnderstoodRest(times: seq<nat>, n: nat, bytes: seq<Byte>, k: nat, receiver: Rate)
    requires Understood(times, n, bytes, k, receiver) && times != []
    ensures Time2Bit(times[0], receiver) == PacketBits(n, bytes)[k]
    ensures Understood(times[1..], n, bytes, k + 1, receiver)
  {
    assert PacketBits(n, bytes)[k + 0] == PacketBits(n, bytes)[k];
    forall i | 0 <= i < |times[1..]| ensures Time2Bit(times[1..][i], receiver) == PacketBits(n, bytes)[k + 1 + i] {
      assert Time2Bit(times[1 + i], receiver) == PacketBits(n, bytes)[k + (1 + i)];
    }
  }

  ghost predicate Arrives(cfg: Config, l: Track, times: seq<nat>, bytes: seq<Byte>)
    requires cfg.Valid() && SystemInv(l.rx)
  {
    AllCross(cfg, l, times) && Delivered(l, Crossed(cfg, l, times), bytes)
  }

  /** From the end bit on. */
  lemma {:induction false} EndArrives(cfg: Config, l: Track, times: seq<nat>, n: nat, bytes: seq<Byte>)
    requires cfg.Valid() && |bytes| >= 4 && Underway(l, n, bytes, n + 9 * |bytes|) && Sound(bytes)
    requires |times| == 1 && Time2Bit(times[0], l.rx.rx.rate) == One
    ensures Arrives(cfg, l, times, bytes)
  {
    PacketEnds(cfg, l, times[0], n, bytes);
    CrossKeepsSystemInv(cfg, l, times[0]);
    CrossedFirst(cfg, l, times);
  }

  /** Bit `k` of a packet is on the wire and the decoder is about to understand it and all after it. */
  ghost predicate Coming(l: Track, times: seq<nat>, n: nat, bytes: seq<Byte>, k: nat) {
    k <= n + 9 * |bytes| && Underway(l, n, bytes, k) && Understood(times, n, bytes, k, l.rx.rx.rate)
  }

  lemma {:induction false} BitArrives(cfg: Config, l: Track, times: seq<nat>, n: nat, bytes: seq<Byte>, k: nat)
    returns (m: Track)
    requires cfg.Valid() && Coming(l, times, n, bytes, k) && k < n + 9 * |bytes|
    requires n >= HEARD_PREAMBLE_BITS && |bytes| <= MAX_PACKET_SIZE
    ensures times != [] && Coming(m, times[1..], n, bytes, k + 1)
    ensures Arrives(cfg, m, times[1..], bytes) ==> Arrives(cfg, l, times, bytes)
  {
    PacketBitAt(n, bytes, k);
    UnderstoodRest(times, n, bytes, k, l.rx.rx.rate);
    PacketMovesOn(cfg, l, times[0], n, bytes, k);
    m := Next(cfg, l, Cross(times[0]));
    if Arrives(cfg, m, times[1..], bytes) { CrossedFirst(cfg, l, times); }
  }

  lemma {:induction false} EndBitArrives(cfg: Config, l: Track, times: seq<nat>, n: nat, bytes: seq<Byte>)
    requires cfg.Valid() && Coming(l, times, n, bytes, n + 9 * |bytes|) && |bytes| >= 4 && Sound(bytes)
    ensures Arrives(cfg, l, times, bytes)
  {
    PacketBitAt(n, bytes, n + 9 * |bytes|);
    UnderstoodRest(times, n, bytes, n + 9 * |bytes|, l.rx.rx.rate);
    EndArrives(cfg, l, times, n, bytes);
  }

  /** From any bit of a packet on. */
  lemma {:induction false} RestArrives(cfg: Config, l: Track, times: seq<nat>, n: nat, bytes: seq<Byte>, k: nat)
    requires cfg.Valid() && Coming(l, times, n, bytes, k)
    requires n >= HEARD_PREAMBLE_BITS && 4 <= |bytes| <= MAX_PACKET_SIZE && Sound(bytes)
    ensures Arrives(cfg, l, times, bytes)
    decreases n + 9 * |bytes| - k
  {
    if k == n + 9 * |bytes| {
      EndBitArrives(cfg, l, times, n, bytes);
    } else {
      var m := BitArrives(cfg, l, times, n, bytes, k);
      RestArrives(cfg, m, times[1..], n, bytes, k + 1);
    }
  }

  /** A sound packet handed to an idle transmitter and sent with every duration inside its window is received by a
      listening decoder at the same rate, or at any rate if it is sent at fallback: that packet, and nothing else. */
  lemma {:induction false} SentPacketArrives(cfg: Config, l: Track, bytes: seq<Byte>, first: nat, times: seq<nat>)
    requires cfg.Valid() && Listening(l) && T.WellFormed(l.tx) && T.Idle(l.tx)
    requires 4 <= |bytes| <= MAX_PACKET_SIZE && Sound(bytes)
    requires l.wire.Sent? ==> Time2Bit(first, l.rx.rx.rate) == l.wire.bit
    requires l.tx.rate == l.rx.rx.rate || l.tx.rate == FALLBACK
    requires InWindows(times, PacketBits(l.tx.cfg.numPreamble, bytes), l.tx.rate)
    ensures CanHappen(cfg, l, Request(T.Send(PacketBits(l.tx.cfg.numPreamble, bytes))))
    ensures var m := Next(cfg, l, Request(T.Send(PacketBits(l.tx.cfg.numPreamble, bytes))));
            && AllCross(cfg, m, [first] + times)
            && Delivered(l, Crossed(cfg, m, [first] + times), bytes)
  {
    var n := l.tx.cfg.numPreamble;
    var bits := PacketBits(n, bytes);
    forall k | 0 <= k < |bits| ensures bits[k] != Ackreq { PacketBitAt(n, bytes, k); }
    var m := Next(cfg, l, Request(T.Send(bits)));
    PacketStarts(cfg, m, first, n, bytes);
    WindowsAreUnderstood(times, n, bytes, l.tx.rate, l.rx.rx.rate);
    RestArrives(cfg, Next(cfg, m, Cross(first)), times, n, bytes, 0);
    assert ([first] + times)[1..] == times;
  }

  /** In particular every packet built, at the very durations the transmitter asks for. */
  lemma {:induction false} BuiltPacketArrives(cfg: Config, l: Track, cmd: Command, data: seq<Byte>, first: nat)
    requires cfg.Valid() && Listening(l) && T.WellFormed(l.tx) && T.Idle(l.tx)
    requires cmd != Unknown && |MakePacket(cmd, data)| <= MAX_PACKET_SIZE
    requires l.wire.Sent? ==> Time2Bit(first, l.rx.rx.rate) == l.wire.bit
    requires l.tx.rate == l.rx.rx.rate || l.tx.rate == FALLBACK
    ensures var bits := PacketBits(l.tx.cfg.numPreamble, MakePacket(cmd, data));
            && CanHappen(cfg, l, Request(T.Send(bits)))
            && var m := Next(cfg, l, Request(T.Send(bits)));
               && AllCross(cfg, m, [first] + Durations(bits, l.tx.rate))
               && Delivered(l, Crossed(cfg, m, [first] + Durations(bits, l.tx.rate)), MakePacket(cmd, data))
  {
    var bits := PacketBits(l.tx.cfg.numPreamble, MakePacket(cmd, data));
    PacketIsSound(cmd, data);
    forall k | 0 <= k < |bits| ensures InWindow(Durations(bits, l.tx.rate)[k], bits[k], l.tx.rate) {
      NominalIsUnderstood(bits[k], l.tx.rate, l.tx.rate);
    }
    SentPacketArrives(cfg, l, MakePacket(cmd, data), first, Durations(bits, l.tx.rate));
  }
}
