/** From executed packets to the update sessions: field layout, and a decoder that has both sessions. */
module Mixins {
  import opened Addresses
  import opened Bytes
  import opened Timing
  import opened Frame
  import opened Command
  import opened Crc
  import opened Packets
  import opened ReadBack
  import opened Receiver
  import opened ReceiverProofs
  import opened Interleaving
  import opened FrameProofs
  import opened Acknowledge
  import opened TransferRates
  import S = Zsu
  import P = Zpp

  // ----- addresses in packets

  function ValueBits(n: nat, width: nat): (bits: Bits)
    ensures |bits| == width
  {
    if width == 0 then [] else ValueBits(n / 2, width - 1) + [n % 2 == 1]
  }

  lemma {:induction false} ValueRoundTrip(n: nat, width: nat)
    requires n < Power2(width)
    ensures BitsValue(ValueBits(n, width)) == n
  {
    if width > 0 { ValueRoundTrip(n / 2, width - 1); }
  }

  lemma {:induction false} AddressSpaceIsPower()
    ensures Power2(32) == ADDRESS_SPACE
  {
    assert Power2(4) == 16;
    assert Power2(8) == 256;
    assert Power2(12) == 0x1000;
    assert Power2(16) == 0x1_0000;
    assert Power2(20) == 0x10_0000;
    assert Power2(24) == 0x100_0000;
    assert Power2(28) == 0x1000_0000;
  }

  /** data2uint32, as a number. */
  function AddressOf(data: seq<Byte>): (addr: nat)
    requires |data| == 4
    ensures addr < ADDRESS_SPACE
  {
    AddressSpaceIsPower();
    BitsValue(Word(data))
  }

  /** uint32_2data, of a number. */
  function AddressBytes(addr: Address): (data: seq<Byte>)
    ensures |data| == 4
  {
    WordBytes(ValueBits(addr, 32))
  }

  lemma {:induction false} AddressRoundTrip(addr: Address)
    ensures AddressOf(AddressBytes(addr)) == addr
  {
    AddressSpaceIsPower();
    ValueRoundTrip(addr, 32);
    WordRoundTrip(ValueBits(addr, 32));
  }

  // ----- commands in packets

  /** Zsu::execute: which firmware command a packet carries. */
  function ZsuCommand(packet: Packet): Option<S.Command>
    requires packet.Valid()
  {
    ZsuFields(packet.Code(), packet.buffer)
  }

  function ZsuFields(cmd: Command, b: seq<Byte>): Option<S.Command>
    requires |b| == MAX_PACKET_SIZE
  {
    match cmd
    case ZsuSalsa20IV => Some(S.Salsa20IV(b[4..12]))
    case ZsuErase => Some(S.Erase(AddressOf(b[4..8]), AddressOf(b[8..12])))
    case ZsuUpdate => Some(S.Update(AddressOf(b[4..8]), b[8..72]))
    case ZsuCrc32Start => Some(S.Crc32Start(AddressOf(b[4..8]), AddressOf(b[8..12]), Word(b[12..16])))
    case ZsuCrc32Result => Some(S.Crc32Result)
    case ZsuCrc32ResultExit => Some(S.Crc32ResultExit)
    case _ => None
  }

  /** A sound project update is at least code, address and checksum long. */
  predicate LongEnough(packet: Packet)
    requires packet.Valid()
  {
    packet.Code().ZppUpdate? ==> 12 <= packet.size
  }

  /** Zpp::execute: which project command a packet carries. */
  function ZppCommand(packet: Packet): P.Command
    requires packet.Valid() && LongEnough(packet)
  {
    ZppFields(packet.Code(), packet.buffer, packet.size)
  }

  function ZppFields(cmd: Command, b: seq<Byte>, size: nat): P.Command
    requires |b| == MAX_PACKET_SIZE
    requires cmd.ZppUpdate? ==> 12 <= size <= MAX_PACKET_SIZE
  {
    match cmd
    case ZppValidQuery => P.ValidQuery(b[4..6], AddressOf(b[6..10]))
    case ZppLcDcQuery => P.LcDcQuery(b[4..8])
    case ZppErase => P.Erase(AddressOf(b[4..8]), AddressOf(b[8..12]))
    case ZppUpdate => P.Update(AddressOf(b[4..8]), b[8..size - 4])
    case ZppUpdateEnd => P.UpdateEnd(AddressOf(b[4..8]), AddressOf(b[8..12]))
    case ZppExit => P.Exit(false)
    case ZppExitReset => P.Exit(true)
    case _ => P.Other
  }

  function ZsuCode(c: S.Command): Command {
    match c
    case Salsa20IV(_) => ZsuSalsa20IV
    case Erase(_, _) => ZsuErase
    case Update(_, _) => ZsuUpdate
    case Crc32Start(_, _, _) => ZsuCrc32Start
    case Crc32Result => ZsuCrc32Result
    case Crc32ResultExit => ZsuCrc32ResultExit
  }

  function ZsuData(c: S.Command): seq<Byte> {
    match c
    case Salsa20IV(iv) => iv
    case Erase(begin, end) => AddressBytes(begin) + AddressBytes(end)
    case Update(addr, bytes) => AddressBytes(addr) + bytes
    case Crc32Start(begin, end, crc) => AddressBytes(begin) + AddressBytes(end) + WordBytes(crc)
    case Crc32Result => []
    case Crc32ResultExit => []
  }

  /** The builders of firmware packets. */
  function ZsuPacket(c: S.Command): seq<Byte> {
    MakePacket(ZsuCode(c), ZsuData(c))
  }

  predicate BuildableZsu(c: S.Command) {
    c.Salsa20IV? ==> |c.iv| == 8
  }

  function ZppCode(c: P.Command): Command
    requires c != P.Other
  {
    match c
    case ValidQuery(_, _) => ZppValidQuery
    case LcDcQuery(_) => ZppLcDcQuery
    case Erase(_, _) => ZppErase
    case Update(_, _) => ZppUpdate
    case UpdateEnd(_, _) => ZppUpdateEnd
    case Exit(resetCvs) => if resetCvs then ZppExitReset else ZppExit
  }

  function ZppData(c: P.Command): seq<Byte>
    requires BuildableZpp(c)
  {
    match c
    case ValidQuery(zppId, flashSize) => zppId + AddressBytes(flashSize)
    case LcDcQuery(developerCode) => developerCode
    case Erase(begin, end) => AddressBytes(begin) + AddressBytes(end)
    case Update(addr, bytes) => AddressBytes(addr) + bytes
    case UpdateEnd(begin, end) => AddressBytes(begin) + AddressBytes(end)
    case Exit(_) => []
  }

  /** The builders of project packets. */
  function ZppPacket(c: P.Command): seq<Byte>
    requires BuildableZpp(c)
  {
    MakePacket(ZppCode(c), ZppData(c))
  }

  predicate BuildableZpp(c: P.Command) {
    && c != P.Other
    && (c.ValidQuery? ==> |c.zppId| == 2 && c.flashSize < ADDRESS_SPACE)
    && (c.LcDcQuery? ==> |c.developerCode| == 4)
  }

  // ----- what was built is what is executed

  lemma {:induction false} AddressAt(b: seq<Byte>, data: seq<Byte>, from: nat, addr: Address)
    requires Holds(b, data) && from + 4 <= |data| && data[from..from + 4] == AddressBytes(addr)
    ensures AddressOf(b[4 + from..8 + from]) == addr
  {
    FieldAt(b, data, from, from + 4);
    AddressRoundTrip(addr);
  }

  /** Two addresses and what follows. */
  lemma {:induction false} RangeFields(b: seq<Byte>, begin: Address, end: Address, rest: seq<Byte>)
    requires Holds(b, AddressBytes(begin) + AddressBytes(end) + rest)
    ensures AddressOf(b[4..8]) == begin && AddressOf(b[8..12]) == end
    ensures 12 + |rest| <= MAX_PACKET_SIZE && b[12..12 + |rest|] == rest
  {
    var data := AddressBytes(begin) + AddressBytes(end) + rest;
    assert data[0..4] == AddressBytes(begin) && data[4..8] == AddressBytes(end) && data[8..8 + |rest|] == rest;
    AddressAt(b, data, 0, begin);
    AddressAt(b, data, 4, end);
    FieldAt(b, data, 8, 8 + |rest|);
  }

  lemma {:induction false} OnlyRangeFields(b: seq<Byte>, begin: Address, end: Address)
    requires Holds(b, AddressBytes(begin) + AddressBytes(end))
    ensures AddressOf(b[4..8]) == begin && AddressOf(b[8..12]) == end
  {
    assert AddressBytes(begin) + AddressBytes(end) == AddressBytes(begin) + AddressBytes(end) + [];
    RangeFields(b, begin, end, []);
  }

  lemma {:induction false} ZsuRangeRead(b: seq<Byte>, begin: Address, end: Address)
    requires Holds(b, AddressBytes(begin) + AddressBytes(end))
    ensures ZsuFields(ZsuErase, b) == Some(S.Erase(begin, end))
  {
    OnlyRangeFields(b, begin, end);
  }

  lemma {:induction false} ZppEraseRead(b: seq<Byte>, size: nat, begin: Address, end: Address)
    requires Holds(b, AddressBytes(begin) + AddressBytes(end))
    ensures ZppFields(ZppErase, b, size) == P.Erase(begin, end)
  {
    OnlyRangeFields(b, begin, end);
  }

  lemma {:induction false} ZppEndRead(b: seq<Byte>, size: nat, begin: Address, end: Address)
    requires Holds(b, AddressBytes(begin) + AddressBytes(end))
    ensures ZppFields(ZppUpdateEnd, b, size) == P.UpdateEnd(begin, end)
  {
    OnlyRangeFields(b, begin, end);
  }

  lemma {:induction false} ChecksumRead(b: seq<Byte>, begin: Address, end: Address, crc: Word32)
    requires Holds(b, AddressBytes(begin) + AddressBytes(end) + WordBytes(crc))
    ensures ZsuFields(ZsuCrc32Start, b) == Some(S.Crc32Start(begin, end, crc))
  {
    RangeFields(b, begin, end, WordBytes(crc));
    WordRoundTrip(crc);
  }

  lemma {:induction false} QueryFields(b: seq<Byte>, zppId: seq<Byte>, flashSize: Address)
    requires |zppId| == 2 && Holds(b, zppId + AddressBytes(flashSize))
    ensures b[4..6] == zppId && AddressOf(b[6..10]) == flashSize
  {
    var data := zppId + AddressBytes(flashSize);
    assert data[0..2] == zppId && data[2..6] == AddressBytes(flashSize);
    FieldAt(b, data, 0, 2);
    AddressAt(b, data, 2, flashSize);
  }

  lemma {:induction false} QueryRead(b: seq<Byte>, size: nat, zppId: seq<Byte>, flashSize: Address)
    requires |zppId| == 2 && Holds(b, zppId + AddressBytes(flashSize))
    ensures ZppFields(ZppValidQuery, b, size) == P.ValidQuery(zppId, flashSize)
  {
    QueryFields(b, zppId, flashSize);
  }

  /** An address and a block. */
  lemma {:induction false} BlockFields(b: seq<Byte>, addr: Address, block: seq<Byte>)
    requires Holds(b, AddressBytes(addr) + block)
    ensures AddressOf(b[4..8]) == addr
    ensures 8 + |block| <= MAX_PACKET_SIZE && b[8..8 + |block|] == block
  {
    var data := AddressBytes(addr) + block;
    assert data[0..4] == AddressBytes(addr) && data[4..4 + |block|] == block;
    AddressAt(b, data, 0, addr);
    FieldAt(b, data, 4, 4 + |block|);
  }

  lemma {:induction false} BlockRead(b: seq<Byte>, addr: Address, block: seq<Byte>)
    requires Holds(b, AddressBytes(addr) + block) && 12 + |block| <= MAX_PACKET_SIZE
    ensures |block| == S.BLOCK_SIZE ==> ZsuFields(ZsuUpdate, b) == Some(S.Update(addr, block))
    ensures ZppFields(ZppUpdate, b, 12 + |block|) == P.Update(addr, block)
  {
    BlockFields(b, addr, block);
  }

  lemma {:induction false} ZsuRead(b: seq<Byte>, c: S.Command)
    requires BuildableZsu(c) && Holds(b, ZsuData(c))
    ensures ZsuFields(ZsuCode(c), b) == Some(c)
  {
    match c {
      case Salsa20IV(_) =>
      case Erase(begin, end) => ZsuRangeRead(b, begin, end);
      case Update(addr, bytes) => BlockRead(b, addr, bytes);
      case Crc32Start(begin, end, crc) => ChecksumRead(b, begin, end, crc);
      case Crc32Result =>
      case Crc32ResultExit =>
    }
  }

  /** Every firmware packet built is executed as the command it was built from. */
  lemma {:induction false} ZsuRoundTrip(packet: Packet, c: S.Command)
    requires packet.Valid() && BuildableZsu(c) && packet.Bytes() == ZsuPacket(c)
    ensures ZsuCommand(packet) == Some(c)
  {
    BuiltPacketHolds(packet, ZsuCode(c), ZsuData(c));
    ZsuRead(packet.buffer, c);
  }

  lemma {:induction false} ZppRead(b: seq<Byte>, size: nat, c: P.Command)
    requires BuildableZpp(c) && Holds(b, ZppData(c))
    requires c.Update? ==> size == 12 + |c.bytes| <= MAX_PACKET_SIZE
    ensures ZppFields(ZppCode(c), b, size) == c
  {
    match c {
      case ValidQuery(zppId, flashSize) => QueryRead(b, size, zppId, flashSize);
      case LcDcQuery(_) =>
      case Erase(begin, end) => ZppEraseRead(b, size, begin, end);
      case Update(addr, bytes) => BlockRead(b, addr, bytes);
      case UpdateEnd(begin, end) => ZppEndRead(b, size, begin, end);
      case Exit(_) =>
    }
  }

  /** Every project packet built is executed as the command it was built from. */
  lemma {:induction false} ZppRoundTrip(packet: Packet, c: P.Command)
    requires packet.Valid() && BuildableZpp(c) && packet.Bytes() == ZppPacket(c)
    ensures LongEnough(packet) && ZppCommand(packet) == c
  {
    BuiltPacketHolds(packet, ZppCode(c), ZppData(c));
    ZppRead(packet.buffer, packet.size, c);
  }

  /** Over the wire: from any selected, idle decoder, one fallback-timed frame of a firmware packet leaves that very
      command at the front of its queue, whatever transfer rate the decoder is at. */
  lemma {:induction false} ZsuCommandOverTheWire(
    cfg: Config, s: System, ackreq: nat, frame: seq<nat>, end: nat, n: nat, c: S.Command)
    requires cfg.Valid() && Ready(s) && TX_MIN_PREAMBLE_BITS <= n && BuildableZsu(c)
    requires InWindow(ackreq, Ackreq, FALLBACK) && InWindow(end, One, FALLBACK)
    requires InWindows(frame, UpToEndBit(n, ZsuPacket(c)), FALLBACK)
    ensures Bounded(cfg, s, Crossings([ackreq] + frame) + [Crossing(end)])
    ensures var u := Run(cfg, s, Crossings([ackreq] + frame) + [Crossing(end)]);
            Queued(u, ZsuPacket(c)) && ZsuCommand(u.rx.ring.Front()) == Some(c)
  {
    PacketIsSound(ZsuCode(c), ZsuData(c));
    PacketIsQueued(cfg, s, ackreq, frame, end, n, ZsuPacket(c), FALLBACK);
    ZsuRoundTrip(Run(cfg, s, Crossings([ackreq] + frame) + [Crossing(end)]).rx.ring.Front(), c);
  }

  /** Which code carries which command of the sessions. */
  lemma CodesOfCommands(packet: Packet)
    requires packet.Valid() && LongEnough(packet)
    ensures ZsuCommand(packet).Some? ==>
              match ZsuCommand(packet).value
              case Salsa20IV(_) => packet.Code() == ZsuSalsa20IV
              case Erase(_, _) => packet.Code() == ZsuErase
              case Update(_, _) => packet.Code() == ZsuUpdate
              case Crc32Start(_, _, _) => packet.Code() == ZsuCrc32Start
              case Crc32Result => packet.Code() == ZsuCrc32Result
              case Crc32ResultExit => packet.Code() == ZsuCrc32ResultExit
    ensures match ZppCommand(packet)
            case ValidQuery(_, _) => packet.Code() == ZppValidQuery
            case LcDcQuery(_) => packet.Code() == ZppLcDcQuery
            case Erase(_, _) => packet.Code() == ZppErase
            case Update(_, _) => packet.Code() == ZppUpdate
            case UpdateEnd(_, _) => packet.Code() == ZppUpdateEnd
            case Exit(resetCvs) => packet.Code() == if resetCvs then ZppExitReset else ZppExit
            case Other => true
  {
  }

  // ----- a decoder with both sessions

  datatype Sessions = Sessions(zsu: S.Session, zpp: P.Session)

  /** The firmware session goes first; leaving the firmware never returns. */
  predicate ZsuAnswers(s: Sessions, packet: Packet, success: bool)
    requires packet.Valid()
  {
    var c := ZsuCommand(packet);
    c.Some? && S.Acks(s.zsu, S.Event(c.value, success))
  }

  predicate ZsuLeaves(s: Sessions, packet: Packet)
    requires packet.Valid()
  {
    packet.Code().ZsuCrc32ResultExit? && s.zsu.crc32valid
  }

  function ZppEvent(packet: Packet, success: bool, failures: nat): P.Event
    requires packet.Valid() && LongEnough(packet)
  {
    P.Event(ZppCommand(packet), success, failures)
  }

  /** Both sessions after one packet. */
  function AfterPacket(s: Sessions, packet: Packet, success: bool, failures: nat): Sessions
    requires packet.Valid() && LongEnough(packet)
  {
    var c := ZsuCommand(packet);
    Sessions(if c.Some? then S.Execute(s.zsu, S.Event(c.value, success)) else s.zsu,
             if ZsuAnswers(s, packet, success) || ZsuLeaves(s, packet) then s.zpp
             else P.Execute(s.zpp, ZppEvent(packet, success, failures)))
  }

  /** Whether the decoder answers in channel 2. */
  predicate Answers(s: Sessions, packet: Packet, success: bool, failures: nat)
    requires packet.Valid() && LongEnough(packet)
  {
    || ZsuAnswers(s, packet, success)
    || (!ZsuLeaves(s, packet) && P.Acks(s.zpp, ZppEvent(packet, success, failures)))
  }

  function ZsuCalls(keystream: S.Keystream, s: Sessions, packet: Packet): seq<S.Call>
    requires packet.Valid()
  {
    var c := ZsuCommand(packet);
    if c.Some? then S.Calls(keystream, s.zsu, c.value) else []
  }

  function ZppCalls(s: Sessions, packet: Packet, success: bool, failures: nat): seq<P.Call>
    requires packet.Valid() && LongEnough(packet) && P.Defined(s.zpp, ZppCommand(packet))
  {
    if ZsuAnswers(s, packet, success) || ZsuLeaves(s, packet) then []
    else P.Calls(s.zpp, ZppEvent(packet, success, failures))
  }

  class ZsuZppDecoder {
    const zsu: S.Mixin
    const zpp: P.Mixin

    constructor (keystream: S.Keystream)
      ensures State() == Sessions(S.POWER_UP, P.POWER_UP)
      ensures fresh(zsu) && fresh(zpp) && zsu.calls == [] && zpp.calls == []
    {
      zsu := new S.Mixin(keystream);
      zpp := new P.Mixin();
    }

    ghost function State(): Sessions
      reads zsu, zpp
    {
      Sessions(zsu.State(), zpp.State())
    }

    /** The default branch of execute: asks one session after the other until one answers. */
    method ExecuteMixins(packet: Packet, success: bool, failures: nat) returns (ack: bool)
      requires packet.Valid() && LongEnough(packet) && P.Defined(zpp.State(), ZppCommand(packet))
      modifies zsu, zpp
      ensures State() == AfterPacket(old(State()), packet, success, failures)
      ensures ack == Answers(old(State()), packet, success, failures)
      ensures zsu.calls == old(zsu.calls) + ZsuCalls(zsu.keystream, old(State()), packet)
      ensures zpp.calls == old(zpp.calls) + ZppCalls(old(State()), packet, success, failures)
    {
      ack := ExecuteZsu(packet, success);
      if ack || (packet.Code().ZsuCrc32ResultExit? && zsu.crc32valid) { return; }
      ack := zpp.ExecuteCommand(P.Event(ZppCommand(packet), success, failures));
    }

    method ExecuteZsu(packet: Packet, success: bool) returns (ack: bool)
      requires packet.Valid()
      modifies zsu
      ensures var c := ZsuCommand(packet);
              zsu.State() == if c.Some? then S.Execute(old(zsu.State()), S.Event(c.value, success))
                             else old(zsu.State())
      ensures ack == ZsuAnswers(old(State()), packet, success)
      ensures zsu.calls == old(zsu.calls) + ZsuCalls(zsu.keystream, old(State()), packet)
    {
      var c := ZsuCommand(packet);
      if c == None { return false; }
      ack := zsu.ExecuteCommand(S.Event(c.value, success));
    }
  }

  /** Whether the packet at the front is left to the sessions. */
  predicate ReachesSessions(s: Rx)
    requires s.ring.Valid()
  {
    var cmd := s.ring.Front().Code();
    && s.ring.len > 0 && s.selected
    && !cmd.Ping? && !cmd.ConfigTransferRate? && !cmd.BinaryTreeSearch? && !cmd.CvRead? && !cmd.CvWrite?
  }

  /** A whole decoder: the receiver and both sessions. */
  class ZsuZppBase {
    const base: Base
    const sessions: ZsuZppDecoder

    constructor (cfg: Config, keystream: S.Keystream)
      requires cfg.Valid()
      ensures base.Valid() && base.State() == POWER_UP && sessions.State() == Sessions(S.POWER_UP, P.POWER_UP)
      ensures base.cfg == cfg && fresh(base) && fresh(sessions)
    {
      base := new Base(cfg);
      sessions := new ZsuZppDecoder(keystream);
    }

    /** Executes the packet at the front with the answer of the sessions; `env` has the other answers of the
        hardware. */
    method Execute(env: Environment, success: bool, failures: nat)
      requires base.Valid()
      requires ReachesSessions(base.State()) ==>
                 && LongEnough(base.State().ring.Front())
                 && P.Defined(sessions.zpp.State(), ZppCommand(base.State().ring.Front()))
      modifies base, base.deque, base.search, sessions.zsu, sessions.zpp
      ensures base.Valid() && base.pulses == old(base.pulses)
      ensures var front := old(base.State()).ring.Front();
              if ReachesSessions(old(base.State())) then
                && sessions.State() == AfterPacket(old(sessions.State()), front, success, failures)
                && base.State()
                == AfterExecute(base.cfg,
                                env.(mixinsAck := Answers(old(sessions.State()), front, success, failures)),
                                old(base.State()))
              else
                && sessions.State() == old(sessions.State())
                && base.State() == AfterExecute(base.cfg, env, old(base.State()))
    {
      var packet := base.deque.slots[base.deque.front];
      var cmd := packet.Code();
      var answers := env;
      if base.deque.len > 0 && base.selected
         && !cmd.Ping? && !cmd.ConfigTransferRate? && !cmd.BinaryTreeSearch? && !cmd.CvRead? && !cmd.CvWrite?
      {
        var ack := sessions.ExecuteMixins(packet, success, failures);
        answers := env.(mixinsAck := ack);
      }
      base.Execute(answers);
    }
  }

  /** A packet that carries a firmware command moves the firmware session by that command, calls its hardware and leaves
      the project session alone, whatever either would answer; any other packet conversely. */
  lemma SessionsStayApart(keystream: S.Keystream, s: Sessions, packet: Packet, success: bool, failures: nat)
    requires packet.Valid() && LongEnough(packet) && P.Defined(s.zpp, ZppCommand(packet))
    ensures var t, c := AfterPacket(s, packet, success, failures), ZsuCommand(packet);
            if c != None then
              && t == Sessions(S.Execute(s.zsu, S.Event(c.value, success)), s.zpp)
              && ZsuCalls(keystream, s, packet) == S.Calls(keystream, s.zsu, c.value)
              && ZppCalls(s, packet, success, failures) == []
            else
              && t == Sessions(s.zsu, P.Execute(s.zpp, ZppEvent(packet, success, failures)))
              && ZsuCalls(keystream, s, packet) == []
              && ZppCalls(s, packet, success, failures) == P.Calls(s.zpp, ZppEvent(packet, success, failures))
  {
    assert ZsuCommand(packet) != None ==> ZppCommand(packet) == P.Other;
  }

  /** Where the answers go wrong: with both sessions present, every firmware command that stays is refused, however well
      it went, until some project has been found valid. */
  lemma ZsuNeedsValidProject(s: Sessions, packet: Packet, success: bool, failures: nat)
    requires packet.Valid() && LongEnough(packet) && ZsuCommand(packet) != None && !ZsuLeaves(s, packet)
    ensures Answers(s, packet, success, failures)
       <==> S.Acks(s.zsu, S.Event(ZsuCommand(packet).value, success)) || !s.zpp.zppValid
  {
    assert ZppCommand(packet) == P.Other;
  }

  /** The end bit of a Busy query queues it with nothing to answer. */
  lemma {:induction false} BusyCompletes(s: Rx, h: seq<SendBit>)
    requires Inv(s, h) && s.phase == EndBit && s.ring.len == 0
    requires s.ring.End().Code() == Busy && s.crc8 == 0
    ensures CanReceive(s, One) && CanAck(ReceiveBit(s, One))
    ensures var t := ReceiveBit(s, One);
            && !t.nack && !t.ack && t.ackreqCount == 0 && t.selected == s.selected
            && t.phase == AckReq && t.ring.Valid() && t.ring.len == 1 && t.ring.Front() == s.ring.End()
  {
    assert ReceiveBit(s, One) == CompletePacket(s);
  }

  lemma {:induction false} ExecuteAnswers(cfg: Config, env: Environment, s: Rx)
    requires cfg.Valid() && s.ring.Valid() && s.ring.len == 1 && s.selected && s.ring.Front().Code() == Busy
    ensures AfterExecute(cfg, env, s) == s.(ack := env.mixinsAck, ring := s.ring.PopFront())
  {
  }

  /** A Busy query to an idle decoder: left in the queue it is answered in neither channel. Executed after `m` ackreq
      bits, it is answered as busy in what is left of channel 2 exactly when no project has been found valid. */
  lemma {:induction false} BusyQueryAnswer(
    cfg: Config, s: Rx, h: seq<SendBit>, sessions: Sessions, env: Environment, m: nat, i: nat)
    requires cfg.Valid() && Inv(s, h) && s.phase == EndBit && s.ring.len == 0 && s.selected
    requires s.ring.End().Code() == Busy && s.crc8 == 0
    requires env.mixinsAck == Answers(sessions, s.ring.End(), true, 0)
    ensures CanReceive(s, One) && CanAck(ReceiveBit(s, One)) && ReceiveBit(s, One).selected
    ensures PulseAt(ReceiveBit(s, One), i) == Silent
    ensures var u := AfterExecute(cfg, env, AfterAckreqs(ReceiveBit(s, One), m));
            && CanAck(u) && u.selected
            && (PulseAt(u, i) == InChannel2 <==> 6 <= m + i + 1 <= 8 && !sessions.zpp.zppValid)
  {
    var t := ReceiveBit(s, One);
    BusyCompletes(s, h);
    PulsePattern(t, i);
    AckreqsOnlyCount(t, m);
    AckreqsStay(t, m);
    var v := AfterAckreqs(t, m);
    ExecuteAnswers(cfg, env, v);
    PulsePattern(AfterExecute(cfg, env, v), i);
  }

  lemma {:induction false} AckreqsStay(s: Rx, m: nat)
    requires CanAck(s) && s.selected && s.phase == AckReq
    ensures AfterAckreqs(s, m).phase == AckReq
  {
    if m > 0 { AckreqsStay(s, m - 1); }
  }
}
