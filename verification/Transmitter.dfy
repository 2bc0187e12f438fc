/** The command station side: turns packets into bit durations, one per zero crossing. */
module Transmitter {
  import opened Bytes
  import opened Timing
  import opened Frame
  import opened Timings

  datatype Config = Config(numPreamble: nat, numAckreq: nat)

  const DEFAULT_CONFIG := Config(TX_MIN_PREAMBLE_BITS, TX_MIN_ACKREQ_BITS)

  predicate ValidConfig(cfg: Config) {
    && TX_MIN_PREAMBLE_BITS <= cfg.numPreamble <= TX_MAX_PREAMBLE_BITS
    && TX_MIN_ACKREQ_BITS <= cfg.numAckreq <= TX_MAX_ACKREQ_BITS
  }

  /** Calls into the command station during the acknowledgement phase. */
  datatype Hook = Begin | Channel1(count: nat) | Channel2(count: nat) | End

  predicate IsChannel1(count: nat) {
    2 <= count <= 4
  }

  predicate IsChannel2(count: nat) {
    6 <= count <= 8
  }

  /** A transmitter: packet bits still to send, ackreq bits already sent, settings. */
  datatype Tx = Tx(rest: seq<SendBit>, ackreqCount: nat, cfg: Config, rate: Rate)

  const INITIAL: Tx := Tx([], TX_MIN_ACKREQ_BITS, DEFAULT_CONFIG, DEFAULT)

  predicate Idle(s: Tx) {
    s.rest == [] && s.ackreqCount == s.cfg.numAckreq
  }

  ghost predicate WellFormed(s: Tx) {
    s.ackreqCount <= s.cfg.numAckreq && ValidConfig(s.cfg)
  }

  datatype Request = Init(cfg: Config) | SetTransferRate(rate: Rate) | Send(bits: seq<SendBit>)

  /** Requests take effect only while idle; the second result tells the caller. */
  function Ask(s: Tx, request: Request): (Tx, bool) {
    if !Idle(s) then (s, false)
    else
      match request
      case Init(cfg) => (s.(cfg := cfg, ackreqCount := cfg.numAckreq), true)
      case SetTransferRate(rate) => (s.(rate := rate), true)
      case Send(bits) => (s.(rest := bits, ackreqCount := 0), true)
  }

  /** The bit that goes out at the next zero crossing. */
  function NextBit(s: Tx): SendBit {
    if s.rest != [] then s.rest[0]
    else if s.ackreqCount < s.cfg.numAckreq then Ackreq
    else One
  }

  function AfterTransmit(s: Tx): Tx {
    if s.rest != [] then s.(rest := s.rest[1..])
    else if s.ackreqCount < s.cfg.numAckreq then s.(ackreqCount := s.ackreqCount + 1)
    else s
  }

  /** The calls made into the command station at the next zero crossing. */
  function Hooks(s: Tx): seq<Hook> {
    if s.rest != [] || s.ackreqCount >= s.cfg.numAckreq then []
    else
      (if s.ackreqCount == 0 then [Begin]
       else if IsChannel1(s.ackreqCount) then [Channel1(s.ackreqCount)]
       else if IsChannel2(s.ackreqCount) then [Channel2(s.ackreqCount)]
       else [])
      + if s.ackreqCount + 1 == s.cfg.numAckreq then [End] else []
  }

  // ----- what a whole run sends

  /** Everything the transmitter has promised to send before it is idle again. */
  ghost function Pending(s: Tx): seq<SendBit>
    requires WellFormed(s)
  {
    s.rest + Repeat(Ackreq, s.cfg.numAckreq - s.ackreqCount)
  }

  lemma IdleWhenNothingPending(s: Tx)
    requires WellFormed(s)
    ensures Idle(s) <==> Pending(s) == []
  {
    assert |Pending(s)| == |s.rest| + s.cfg.numAckreq - s.ackreqCount;
  }

  lemma TransmitSendsPending(s: Tx)
    requires WellFormed(s)
    ensures WellFormed(AfterTransmit(s))
    ensures Pending(s) != [] ==> NextBit(s) == Pending(s)[0] && Pending(AfterTransmit(s)) == Pending(s)[1..]
    ensures Pending(s) == [] ==> NextBit(s) == One && AfterTransmit(s) == s
  {
    IdleWhenNothingPending(s);
  }

  /** A run of the transmitter under any requests in between. */
  datatype Event = Crossing | Asked(request: Request)

  function Run(s: Tx, events: seq<Event>): Tx
    decreases |events|
  {
    if events == [] then s
    else match events[0]
      case Crossing => Run(AfterTransmit(s), events[1..])
      case Asked(request) => Run(Ask(s, request).0, events[1..])
  }

  function Output(s: Tx, events: seq<Event>): seq<SendBit>
    decreases |events|
  {
    if events == [] then []
    else match events[0]
      case Crossing => [NextBit(s)] + Output(AfterTransmit(s), events[1..])
      case Asked(request) => Output(Ask(s, request).0, events[1..])
  }

  /** The durations asked for, one a crossing. */
  function Sent(s: Tx, events: seq<Event>): seq<nat>
    decreases |events|
  {
    if events == [] then []
    else match events[0]
      case Crossing => [Nominal(NextBit(s), s.rate)] + Sent(AfterTransmit(s), events[1..])
      case Asked(request) => Sent(Ask(s, request).0, events[1..])
  }

  function Crossings(events: seq<Event>): nat {
    if events == [] then 0 else (if events[0].Crossing? then 1 else 0) + Crossings(events[1..])
  }

  /** While something is pending, every request is refused without effect and the pending bits go out in order. */
  lemma {:induction false} PendingGoesOut(s: Tx, events: seq<Event>)
    requires WellFormed(s)
    requires Crossings(events) < |Pending(s)|
    ensures WellFormed(Run(s, events))
    ensures Output(s, events) == Pending(s)[..Crossings(events)]
    ensures Sent(s, events) == Durations(Pending(s)[..Crossings(events)], s.rate)
    ensures Pending(Run(s, events)) == Pending(s)[Crossings(events)..]
    ensures Run(s, events).cfg == s.cfg && Run(s, events).rate == s.rate
    ensures !Idle(Run(s, events))
    decreases |events|
  {
    IdleWhenNothingPending(s);
    if events != [] {
      match events[0] {
        case Crossing =>
          TransmitSendsPending(s);
          PendingGoesOut(AfterTransmit(s), events[1..]);
          DurationsConcat([Pending(s)[0]], Pending(s)[1..][..Crossings(events[1..])], s.rate);
          assert Pending(s)[..Crossings(events)] == [Pending(s)[0]] + Pending(s)[1..][..Crossings(events[1..])];
        case Asked(_) =>
          PendingGoesOut(s, events[1..]);
      }
    }
  }

  function CrossingsOnly(n: nat): seq<Event> {
    seq(n, _ => Crossing)
  }

  /** Left alone, it sends what is pending and then ones for ever; it is idle from exactly that point on. */
  lemma {:induction false} RunThenOnes(s: Tx, n: nat)
    requires WellFormed(s)
    ensures WellFormed(Run(s, CrossingsOnly(n)))
    ensures Output(s, CrossingsOnly(n)) == (Pending(s) + Repeat(One, n))[..n]
    ensures Sent(s, CrossingsOnly(n)) == Durations((Pending(s) + Repeat(One, n))[..n], s.rate)
    ensures Idle(Run(s, CrossingsOnly(n))) <==> n >= |Pending(s)|
    decreases n
  {
    IdleWhenNothingPending(s);
    if n > 0 {
      assert CrossingsOnly(n)[1..] == CrossingsOnly(n - 1);
      TransmitSendsPending(s);
      RunThenOnes(AfterTransmit(s), n - 1);
      FirstOfPending(Pending(s), n);
    }
  }

  lemma FirstOfPending(pending: seq<SendBit>, n: nat)
    requires n > 0
    ensures (pending + Repeat(One, n))[..n]
         == if pending == [] then [One] + ([] + Repeat(One, n - 1))[..n - 1]
            else [pending[0]] + (pending[1..] + Repeat(One, n - 1))[..n - 1]
  {
  }

  /** A packet handed over while idle goes out as one whole frame, followed by ones. */
  lemma PacketGoesOutAsFrame(s: Tx, bytes: seq<Byte>, n: nat)
    requires WellFormed(s) && Idle(s)
    ensures var (sent, ok) := Ask(s, Send(PacketBits(s.cfg.numPreamble, bytes)));
            var frame := FrameBits(s.cfg.numPreamble, bytes, s.cfg.numAckreq);
            && ok
            && Output(sent, CrossingsOnly(n)) == (frame + Repeat(One, n))[..n]
            && (Idle(Run(sent, CrossingsOnly(n))) <==> n >= |frame|)
  {
    RunThenOnes(Ask(s, Send(PacketBits(s.cfg.numPreamble, bytes))).0, n);
  }

  // ----- the two storage variants

  /** Stores the packet and computes each duration when it is due. */
  class PacketTransmitter {
    var packet: TimingsAdapter
    var ackreqCount: nat
    var cfg: Config
    var rate: Rate
    var hooks: seq<Hook>

    constructor ()
      ensures Valid() && fresh(packet) && State() == INITIAL && hooks == []
    {
      packet := new TimingsAdapter.Empty();
      ackreqCount, cfg, rate, hooks := TX_MIN_ACKREQ_BITS, DEFAULT_CONFIG, DEFAULT, [];
    }

    ghost predicate Valid()
      reads this, packet
    {
      && ackreqCount <= cfg.numAckreq && ValidConfig(cfg)
      && packet.Valid() && packet.count <= |packet.Bits()|
      && (packet.count < |packet.Bits()| ==> packet.rate == rate)
    }

    ghost function State(): (s: Tx)
      reads this, packet
      requires Valid()
      ensures WellFormed(s)
    {
      Tx(packet.Bits()[packet.count..], ackreqCount, cfg, rate)
    }

    method IsIdle() returns (idle: bool)
      requires Valid()
      ensures idle <==> Idle(State())
    {
      var end := packet.AtEnd();
      idle := end && ackreqCount == cfg.numAckreq;
    }

    method Init(cfg: Config) returns (ok: bool)
      requires Valid() && ValidConfig(cfg)
      modifies this
      ensures Valid() && packet == old(packet) && hooks == old(hooks)
      ensures (State(), ok) == Ask(old(State()), Request.Init(cfg))
    {
      var idle := IsIdle();
      if !idle { return false; }
      ackreqCount := cfg.numAckreq;
      this.cfg := cfg;
      return true;
    }

    method SetTransferRate(rate: Rate) returns (ok: bool)
      requires Valid()
      modifies this
      ensures Valid() && packet == old(packet) && hooks == old(hooks)
      ensures (State(), ok) == Ask(old(State()), Request.SetTransferRate(rate))
    {
      var idle := IsIdle();
      if !idle { return false; }
      this.rate := rate;
      return true;
    }

    method Bytes(bytes: seq<Byte>) returns (ok: bool)
      requires Valid() && |bytes| <= MAX_PACKET_SIZE
      modifies this
      ensures Valid() && fresh({packet} - {old(packet)}) && hooks == old(hooks)
      ensures (State(), ok) == Ask(old(State()), Send(AdapterBits(old(cfg.numPreamble), bytes)))
    {
      var idle := IsIdle();
      if !idle { return false; }
      packet := new TimingsAdapter(bytes, cfg.numPreamble, rate);
      ackreqCount := 0;
      return true;
    }

    method Transmit() returns (duration: nat)
      requires Valid()
      modifies this, packet
      ensures Valid() && packet == old(packet)
      ensures duration == Nominal(NextBit(old(State())), old(rate))
      ensures State() == AfterTransmit(old(State()))
      ensures hooks == old(hooks) + Hooks(old(State()))
    {
      var end := packet.AtEnd();
      if !end {
        duration := packet.Deref();
        packet.Next();
      } else if ackreqCount < cfg.numAckreq {
        if ackreqCount == 0 { hooks := hooks + [Begin]; }
        else if IsChannel1(ackreqCount) { hooks := hooks + [Channel1(ackreqCount)]; }
        else if IsChannel2(ackreqCount) { hooks := hooks + [Channel2(ackreqCount)]; }
        ackreqCount := ackreqCount + 1;
        if ackreqCount == cfg.numAckreq { hooks := hooks + [End]; }
        duration := TimingOf(rate).ackreq;
      } else {
        duration := TimingOf(rate).one;
      }
    }
  }

  /** Stores the durations, computed when the packet is handed over. */
  class TimingsTransmitter {
    var packet: seq<nat>
    var iter: nat
    var ackreqCount: nat
    var cfg: Config
    var rate: Rate
    var hooks: seq<Hook>
    ghost var bits: seq<SendBit>

    constructor ()
      ensures Valid() && State() == INITIAL && hooks == []
    {
      packet, iter, bits := [], 0, [];
      ackreqCount, cfg, rate, hooks := TX_MIN_ACKREQ_BITS, DEFAULT_CONFIG, DEFAULT, [];
    }

    ghost predicate Valid()
      reads this
    {
      && ackreqCount <= cfg.numAckreq && ValidConfig(cfg)
      && |packet| == |bits| && iter <= |packet|
      && forall i :: iter <= i < |packet| ==> packet[i] == Nominal(bits[i], rate)
    }

    ghost function State(): (s: Tx)
      reads this
      requires Valid()
      ensures WellFormed(s)
    {
      Tx(bits[iter..], ackreqCount, cfg, rate)
    }

    method IsIdle() returns (idle: bool)
      requires Valid()
      ensures idle <==> Idle(State())
    {
      idle := iter == |packet| && ackreqCount == cfg.numAckreq;
    }

    method Init(cfg: Config) returns (ok: bool)
      requires Valid() && ValidConfig(cfg)
      modifies this
      ensures Valid() && hooks == old(hooks)
      ensures (State(), ok) == Ask(old(State()), Request.Init(cfg))
    {
      var idle := IsIdle();
      if !idle { return false; }
      ackreqCount := cfg.numAckreq;
      this.cfg := cfg;
      return true;
    }

    method SetTransferRate(rate: Rate) returns (ok: bool)
      requires Valid()
      modifies this
      ensures Valid() && hooks == old(hooks)
      ensures (State(), ok) == Ask(old(State()), Request.SetTransferRate(rate))
    {
      var idle := IsIdle();
      if !idle { return false; }
      this.rate := rate;
      return true;
    }

    method Bytes(bytes: seq<Byte>) returns (ok: bool)
      requires Valid() && |bytes| <= MAX_PACKET_SIZE
      modifies this
      ensures Valid() && hooks == old(hooks)
      ensures (State(), ok) == Ask(old(State()), Send(PacketBits(old(cfg.numPreamble), bytes)))
    {
      var idle := IsIdle();
      if !idle { return false; }
      packet := Bytes2Timings(bytes, cfg.numPreamble, 0, rate);
      bits := FrameBits(cfg.numPreamble, bytes, 0);
      assert bits == PacketBits(cfg.numPreamble, bytes);
      iter := 0;
      ackreqCount := 0;
      return true;
    }

    method Transmit() returns (duration: nat)
      requires Valid()
      modifies this
      ensures Valid()
      ensures duration == Nominal(NextBit(old(State())), old(rate))
      ensures State() == AfterTransmit(old(State()))
      ensures hooks == old(hooks) + Hooks(old(State()))
    {
      if iter != |packet| {
        duration := packet[iter];
        iter := iter + 1;
      } else if ackreqCount < cfg.numAckreq {
        if ackreqCount == 0 { hooks := hooks + [Begin]; }
        else if IsChannel1(ackreqCount) { hooks := hooks + [Channel1(ackreqCount)]; }
        else if IsChannel2(ackreqCount) { hooks := hooks + [Channel2(ackreqCount)]; }
        ackreqCount := ackreqCount + 1;
        if ackreqCount == cfg.numAckreq { hooks := hooks + [End]; }
        duration := TimingOf(rate).ackreq;
      } else {
        duration := TimingOf(rate).one;
      }
    }
  }
}
