/** The decoder side: classifies durations, reassembles packets bit by bit and queues them for execution. */
module Receiver {
  import opened Bytes
  import opened Crc
  import opened Timing
  import opened Frame
  import opened BinaryTreeSearch
  import opened Command

  // ----- packet slots and their ring

  /** A bounded buffer; bytes beyond `size` are whatever an earlier packet left there. */
  datatype Packet = Packet(buffer: seq<Byte>, size: nat) {
    ghost predicate Valid() {
      |buffer| == MAX_PACKET_SIZE && size <= MAX_PACKET_SIZE
    }

    function Bytes(): seq<Byte>
      requires Valid()
    {
      buffer[..size]
    }

    /** packet2command: reads four bytes whatever the size says. */
    function Code(): Command
      requires Valid()
    {
      CommandOf(buffer)
    }

    function PushBack(byte: Byte): (p: Packet)
      requires Valid() && size < MAX_PACKET_SIZE
      ensures p.Valid() && p.Bytes() == Bytes() + [byte]
    {
      Packet(buffer[size := byte], size + 1)
    }

    /** The first byte after the command code, as a number. */
    function Parameter(): nat
      requires Valid()
    {
      ByteValue(buffer[4])
    }

    /** resize(0) */
    function Clear(): Packet {
      Packet(buffer, 0)
    }
  }

  const MAX_SIZE: nat := 2

  /** Two slots used round robin; the slot after the last queued packet is the one being filled. */
  datatype Ring = Ring(slots: seq<Packet>, front: nat, len: nat) {
    ghost predicate Valid() {
      |slots| == MAX_SIZE && front < MAX_SIZE && len <= MAX_SIZE && slots[0].Valid() && slots[1].Valid()
    }

    function EndIndex(): nat {
      (front + len) % MAX_SIZE
    }

    function End(): (p: Packet)
      requires Valid()
      ensures p.Valid()
    {
      slots[EndIndex()]
    }

    function Front(): (p: Packet)
      requires Valid()
      ensures p.Valid()
    {
      slots[front]
    }

    function SetEnd(p: Packet): (r: Ring)
      requires Valid() && p.Valid()
      ensures r.Valid() && r.End() == p && r.front == front && r.len == len
    {
      Ring(slots[EndIndex() := p], front, len)
    }

    function PushBack(): (r: Ring)
      requires Valid() && len < MAX_SIZE
      ensures r.Valid()
    {
      Ring(slots, front, len + 1)
    }

    function PopFront(): (r: Ring)
      requires Valid() && len > 0
      ensures r.Valid()
    {
      Ring(slots, (front + 1) % MAX_SIZE, len - 1)
    }

    /** The queued packets, oldest first. */
    ghost function Queue(): seq<seq<Byte>>
      requires Valid()
    {
      seq(len, i requires 0 <= i < len => slots[(front + i) % MAX_SIZE].Bytes())
    }
  }

  // ----- the receiver

  datatype Phase = Preamble | Data | EndBit | AckReq

  datatype Rx = Rx(
    phase: Phase, bitCount: nat, ackreqCount: nat, byte: Byte, crc8: Byte, crc32: Word32,
    ring: Ring, rate: Rate, active: bool, selected: bool, nack: bool, ack: bool, ignore: bool)

  const EMPTY_PACKET: Packet := Packet(seq(MAX_PACKET_SIZE, _ => 0), 0)

  const POWER_UP: Rx := Rx(
    Preamble, 0, 0, 0, CRC8_INIT, CRC32_INIT,
    Ring([EMPTY_PACKET, EMPTY_PACKET], 0, 0), DEFAULT, false, true, false, false, true)

  function AfterReset(s: Rx): Rx
    requires s.ring.Valid()
  {
    s.(ring := s.ring.SetEnd(s.ring.End().Clear()),
       bitCount := 0, ackreqCount := 0, byte := 0, ack := false,
       crc8 := CRC8_INIT, crc32 := CRC32_INIT, phase := Preamble)
  }

  /** One more bit of a byte; the eighth completes it. */
  function ShiftIn(s: Rx, bit: bool): Rx
    requires s.ring.Valid() && s.bitCount < 8
    requires s.bitCount == 7 ==> s.ring.End().size < MAX_PACKET_SIZE
  {
    var byte := PutBit(s.byte, s.bitCount, bit);
    if s.bitCount < 7 then s.(byte := byte, bitCount := s.bitCount + 1)
    else s.(crc8 := Crc8Next(s.crc8, byte), crc32 := Crc32Next(s.crc32, byte),
            ring := s.ring.SetEnd(s.ring.End().PushBack(byte)), bitCount := 0, byte := 0)
  }

  /** Whether the checksum of the packet in the end slot is clear; long for the two update commands. */
  predicate CrcClear(s: Rx)
    requires s.ring.Valid()
  {
    if HasCrc32(s.ring.End().Code()) then Crc32Value(s.crc32) == Zeros(32) else s.crc8 == 0
  }

  /** What both channels will answer to the packet in the end slot; with a packet still queued only Busy is looked
      at. */
  function AnswerPacket(s: Rx): Rx
    requires s.ring.Valid()
  {
    var cmd := s.ring.End().Code();
    if s.ring.len >= MAX_SIZE - 1 then
      if !cmd.Busy? then s
      else s.(nack := s.crc8 != 0, ack := s.crc8 == 0 || s.ack)
    else
      s.(nack := !CrcClear(s),
         ack := if HasCrc32(cmd) || cmd.ZsuSalsa20IV? then !CrcClear(s)
                else s.ack && !(cmd.Busy? && s.crc8 == 0))
  }

  /** The end bit came in: the packet is queued if it is sound and nothing else waits. */
  function CompletePacket(s: Rx): Rx
    requires s.ring.Valid() && s.ring.len < MAX_SIZE
  {
    AnswerPacket(s).(bitCount := 0, phase := AckReq,
                     ring := if CrcClear(s) && s.ring.len == 0 then s.ring.PushBack() else s.ring)
  }

  /** No byte may complete while the slot is full. */
  ghost predicate CanReceive(s: Rx, bit: Bit) {
    && s.ring.Valid() && s.ring.len < MAX_SIZE
    && (s.phase == Data ==> s.bitCount < 8)
    && (s.phase == Data && s.bitCount == 7 && (bit == Zero || bit == One) ==> s.ring.End().size < MAX_PACKET_SIZE)
  }

  /** One classified bit; an ackreq bit goes to the ackreq phase whatever the phase was. */
  function ReceiveBit(s: Rx, bit: Bit): Rx
    requires CanReceive(s, bit)
  {
    match (if bit == Ackreq then AckReq else s.phase)
    case Preamble =>
      if bit == One then s.(bitCount := s.bitCount + 1, nack := s.bitCount + 1 >= 2 || s.nack)
      else if s.bitCount < RX_MIN_PREAMBLE_BITS then AfterReset(s)
      else s.(bitCount := 0, active := true, phase := Data)
    case Data =>
      if bit == Invalid then AfterReset(s)
      else
        var t := ShiftIn(s, bit == One);
        if t.bitCount == 0 then t.(phase := EndBit) else t
    case EndBit =>
      if bit == Zero then s.(phase := Data)
      else if bit == One then CompletePacket(s)
      else AfterReset(s)
    case AckReq =>
      if !s.selected || bit != Ackreq then AfterReset(s)
      else s.(phase := AckReq, ackreqCount := s.ackreqCount + 1)
  }

  datatype Channel = Silent | InChannel1 | InChannel2

  /** The channel the receiver pulses in while it takes a bit. */
  function PulseChannel(s: Rx, bit: Bit): Channel {
    var count := s.ackreqCount + 1;
    if bit != Ackreq || !s.selected then Silent
    else if 2 <= count <= 4 then if s.nack then InChannel1 else Silent
    else if 6 <= count <= 8 then if s.ack then InChannel2 else Silent
    else Silent
  }

  /** Pulse length in microseconds. */
  function PulseTime(rate: Rate, time: nat): nat {
    if IsFallbackAckreq(time) then TimingOf(FALLBACK).ack else TimingOf(rate).ack
  }

  function PulsesOf(s: Rx, time: nat): seq<nat> {
    if PulseChannel(s, Time2Bit(time, s.rate)) == Silent then [] else [PulseTime(s.rate, time)]
  }

  function AfterReceive(s: Rx, time: nat): Rx
    requires CanReceive(s, Time2Bit(time, s.rate))
  {
    ReceiveBit(s, Time2Bit(time, s.rate))
  }

  // ----- execution of queued packets

  /** Serial number and decoder id are four bytes each, most significant first. */
  datatype Config = Config(serialNumber: seq<Byte>, decoderId: seq<Byte>, rate: Rate) {
    ghost predicate Valid() {
      |serialNumber| == 4 && |decoderId| == 4
    }

    function Number(): Id
      requires Valid()
    {
      seq(64, i requires 0 <= i < 64 => AllBits(decoderId + serialNumber)[63 - i])
    }
  }

  /** What the hardware and the mixins answer. */
  datatype Environment = Environment(cvBit: bool, cvWritten: bool, mixinsAck: bool)

  const NO_NUMBER: seq<Byte> := [0, 0, 0, 0]

  /** Which serial number a ping asks for; none in the short form. */
  function PingSerialNumber(packet: Packet): seq<Byte>
    requires packet.Valid()
  {
    if packet.size < 9 then NO_NUMBER else packet.buffer[4..8]
  }

  /** Which decoder id a ping asks for; the short form gives the top byte only. */
  function PingDecoderId(cfg: Config, packet: Packet): seq<Byte>
    requires packet.Valid() && cfg.Valid()
  {
    if packet.size < 9 then if packet.buffer[4] != 0 then [packet.buffer[4]] + cfg.decoderId[1..] else NO_NUMBER
    else if packet.size >= 12 then packet.buffer[8..12]
    else NO_NUMBER
  }

  function PingSelects(cfg: Config, packet: Packet): bool
    requires packet.Valid() && cfg.Valid()
  {
    var serialNumber := PingSerialNumber(packet);
    var decoderId := PingDecoderId(cfg, packet);
    && (serialNumber == NO_NUMBER || serialNumber == cfg.serialNumber)
    && (decoderId == NO_NUMBER || decoderId == cfg.decoderId)
  }

  /** The effect of a command other than ping on a selected decoder. */
  function SelectedBody(cfg: Config, cmd: Command, parameter: nat, env: Environment, s: Rx): Rx
    requires cfg.Valid()
  {
    if cmd.ConfigTransferRate? then
      if RateBelow(parameter, cfg.rate) then s.(ack := true)
      else if parameter < 5 then s.(rate := parameter)
      else s
    else if cmd.BinaryTreeSearch? then
      s.(ack := Answer(s.ignore, cfg.Number(), parameter), ignore := Ignores(s.ignore, cfg.Number(), parameter))
    else if cmd.CvRead? then s.(ack := env.cvBit)
    else if cmd.CvWrite? then s.(ack := !env.cvWritten)
    else s.(ack := env.mixinsAck)
  }

  /** The effect of one command, before its packet leaves the queue. */
  function ExecuteBody(cfg: Config, packet: Packet, env: Environment, s: Rx): Rx
    requires packet.Valid() && cfg.Valid()
  {
    if packet.Code().Ping? then s.(selected := PingSelects(cfg, packet), ack := PingSelects(cfg, packet))
    else if s.selected then SelectedBody(cfg, packet.Code(), packet.Parameter(), env, s)
    else s
  }

  function AfterExecute(cfg: Config, env: Environment, s: Rx): Rx
    requires s.ring.Valid() && cfg.Valid()
  {
    if s.ring.len == 0 then s
    else
      var t := ExecuteBody(cfg, s.ring.Front(), env, s);
      t.(ring := t.ring.PopFront())
  }

  // ----- the classes

  /** The two-slot deque of packets. */
  class InplaceDeque {
    const slots: array<Packet>
    var front: nat
    var len: nat

    constructor ()
      ensures Valid() && fresh(slots) && Value() == POWER_UP.ring
    {
      slots := new Packet[MAX_SIZE](_ => EMPTY_PACKET);
      front, len := 0, 0;
    }

    ghost predicate Valid()
      reads this, slots
    {
      slots.Length == MAX_SIZE && Value().Valid()
    }

    ghost function Value(): Ring
      reads this, slots
    {
      Ring(slots[..], front, len)
    }

    method EndPushBack(byte: Byte)
      requires Valid() && Value().End().size < MAX_PACKET_SIZE
      modifies slots
      ensures Valid() && Value() == old(Value().SetEnd(Value().End().PushBack(byte)))
    {
      var end := (front + len) % MAX_SIZE;
      slots[end] := slots[end].PushBack(byte);
    }

    method EndClear()
      requires Valid()
      modifies slots
      ensures Valid() && Value() == old(Value().SetEnd(Value().End().Clear()))
    {
      var end := (front + len) % MAX_SIZE;
      slots[end] := slots[end].Clear();
    }

    method PushBack()
      requires Valid() && len < MAX_SIZE
      modifies this
      ensures Valid() && Value() == old(Value().PushBack())
    {
      len := len + 1;
    }

    method PopFront()
      requires Valid() && len > 0
      modifies this
      ensures Valid() && Value() == old(Value().PopFront())
    {
      front, len := (front + 1) % MAX_SIZE, len - 1;
    }
  }

  class Base {
    const cfg: Config
    const crc8: Crc8
    const crc32: Crc32
    const deque: InplaceDeque
    const search: Decoder
    var state: Phase
    var bitCount: nat
    var ackreqbitCount: nat
    var byte: Byte
    var transferRateIndex: Rate
    var selected: bool
    var active: bool
    var nack: bool
    var ack: bool
    var pulses: seq<nat>
    ghost const parts: set<object>

    constructor (cfg: Config)
      requires cfg.Valid()
      ensures Valid() && this.cfg == cfg && State() == POWER_UP && pulses == []
      ensures Whole() && fresh(parts)
      ensures fresh(crc8) && fresh(crc32) && fresh(deque) && fresh(deque.slots) && fresh(search)
    {
      this.cfg := cfg;
      var crc8 := new Crc8();
      var crc32 := new Crc32();
      var deque := new InplaceDeque();
      var search := new Decoder();
      this.crc8, this.crc32, this.deque, this.search := crc8, crc32, deque, search;
      state, bitCount, ackreqbitCount, byte, transferRateIndex := Preamble, 0, 0, 0, DEFAULT;
      selected, active, nack, ack, pulses := true, false, false, false, [];
      parts := {crc8, crc32, deque, deque.slots, search};
    }

    /** The objects the receiver is made of are its own. */
    ghost predicate Whole() {
      this !in parts && crc8 in parts && crc32 in parts && deque in parts && deque.slots in parts && search in parts
    }

    ghost predicate Valid()
      reads this, deque, deque.slots
    {
      deque.Valid() && cfg.Valid()
    }

    ghost function State(): Rx
      reads this, crc8, crc32, deque, deque.slots, search
    {
      Rx(state, bitCount, ackreqbitCount, byte, crc8.crc, crc32.crc,
         deque.Value(), transferRateIndex, active, selected, nack, ack, search.ignore)
    }

    method Receive(time: nat)
      requires Valid() && CanReceive(State(), Time2Bit(time, transferRateIndex))
      modifies this, crc8, crc32, deque, deque.slots
      ensures Valid() && State() == AfterReceive(old(State()), time)
      ensures pulses == old(pulses) + PulsesOf(old(State()), time)
    {
      var bit := Time2Bit(time, transferRateIndex);
      if bit == Ackreq { state := AckReq; }
      match state {
        case Preamble => PreamblePhase(bit);
        case Data => DataPhase(bit);
        case EndBit => EndBitPhase(bit);
        case AckReq => AckReqPhase(time, bit);
      }
    }

    method PreamblePhase(bit: Bit)
      requires Valid() && state == Preamble && bit != Ackreq && CanReceive(State(), bit)
      modifies this, crc8, crc32, deque.slots
      ensures Valid() && State() == ReceiveBit(old(State()), bit) && pulses == old(pulses)
    {
      if bit == One {
        bitCount := bitCount + 1;
        nack := bitCount >= 2 || nack;
      } else if bitCount < RX_MIN_PREAMBLE_BITS {
        Reset();
      } else {
        bitCount := 0;
        active := true;
        state := Data;
      }
    }

    method DataPhase(bit: Bit)
      requires Valid() && state == Data && bit != Ackreq && CanReceive(State(), bit)
      modifies this, crc8, crc32, deque.slots
      ensures Valid() && State() == ReceiveBit(old(State()), bit) && pulses == old(pulses)
    {
      if bit != Zero && bit != One {
        Reset();
        return;
      }
      var done := ShiftInBit(bit == One);
      if !done { return; }
      state := EndBit;
    }

    method EndBitPhase(bit: Bit)
      requires Valid() && state == EndBit && bit != Ackreq && CanReceive(State(), bit)
      modifies this, crc8, crc32, deque, deque.slots
      ensures Valid() && State() == ReceiveBit(old(State()), bit) && pulses == old(pulses)
    {
      if bit == Zero {
        state := Data;
        return;
      } else if bit != One {
        Reset();
        return;
      }
      var valid := PacketValid();
      if valid { deque.PushBack(); }
      bitCount := 0;
      state := AckReq;
    }

    method AckReqPhase(time: nat, bit: Bit)
      requires Valid() && state == AckReq && CanReceive(State(), bit)
      modifies this, crc8, crc32, deque.slots
      ensures Valid() && State() == ReceiveBit(old(State()), bit)
      ensures pulses == old(pulses)
                      + if PulseChannel(old(State()), bit) == Silent then []
                        else [PulseTime(old(transferRateIndex), time)]
    {
      if !selected || bit != Ackreq {
        Reset();
        return;
      }
      ackreqbitCount := ackreqbitCount + 1;
      if ackreqbitCount < 2 { return; }
      var us := if IsFallbackAckreq(time) then TimingOf(FALLBACK) else TimingOf(transferRateIndex);
      if ackreqbitCount >= 2 && ackreqbitCount <= 4 {
        if nack { pulses := pulses + [us.ack]; }
      } else if ackreqbitCount >= 6 && ackreqbitCount <= 8 {
        if ack { pulses := pulses + [us.ack]; }
      }
    }

    method ShiftInBit(bit: bool) returns (done: bool)
      requires Valid() && bitCount < 8
      requires bitCount == 7 ==> State().ring.End().size < MAX_PACKET_SIZE
      modifies this, crc8, crc32, deque.slots
      ensures Valid() && State() == ShiftIn(old(State()), bit) && done == (bitCount == 0) && pulses == old(pulses)
    {
      byte := PutBit(byte, bitCount, bit);
      bitCount := bitCount + 1;
      if bitCount >= 8 { StoreByte(); }
      done := bitCount == 0;
    }

    /** The eighth bit is in: the byte enters both checksums and the end slot. */
    method StoreByte()
      requires Valid() && State().ring.End().size < MAX_PACKET_SIZE
      modifies this, crc8, crc32, deque.slots
      ensures Valid() && pulses == old(pulses)
      ensures State() == old(State()).(crc8 := Crc8Next(old(crc8.crc), old(byte)),
                                        crc32 := Crc32Next(old(crc32.crc), old(byte)),
                                       ring := old(State()).ring.SetEnd(old(State()).ring.End().PushBack(old(byte))),
                                       bitCount := 0, byte := 0)
    {
      crc8.Next(byte);
      crc32.Next(byte);
      deque.EndPushBack(byte);
      bitCount, byte := 0, 0;
    }

    method Reset()
      requires Valid()
      modifies this, crc8, crc32, deque.slots
      ensures Valid() && State() == AfterReset(old(State())) && pulses == old(pulses)
    {
      deque.EndClear();
      bitCount, ackreqbitCount, byte := 0, 0, 0;
      ack := false;
      crc8.Reset();
      crc32.Reset();
      state := Preamble;
    }

    method PacketValid() returns (valid: bool)
      requires Valid() && deque.len < MAX_SIZE
      modifies this, crc32
      ensures Valid() && pulses == old(pulses)
      ensures valid == (CrcClear(old(State())) && old(deque.len) == 0)
      ensures State() == AnswerPacket(old(State()))
    {
      var almostFull := deque.len >= MAX_SIZE - 1;
      var cmd := deque.slots[(deque.front + deque.len) % MAX_SIZE].Code();
      var busy := Busy(cmd, almostFull);
      if busy { return false; }
      valid := CrcCheck(cmd);
    }

    method Busy(cmd: Command, almostFull: bool) returns (busy: bool)
      requires Valid()
      modifies this
      ensures Valid() && busy == almostFull && pulses == old(pulses)
      ensures State() == if cmd.Busy?
                         then old(State()).(nack := old(crc8.crc) != 0,
                                             ack := if old(crc8.crc) == 0 then almostFull else old(ack))
                         else old(State())
    {
      if cmd.Busy? {
        nack := crc8.crc != 0;
        if crc8.crc == 0 { ack := almostFull; }
      }
      return almostFull;
    }

    method CrcCheck(cmd: Command) returns (clear: bool)
      requires Valid() && cmd == State().ring.End().Code()
      modifies this, crc32
      ensures Valid() && clear == CrcClear(old(State())) && pulses == old(pulses)
      ensures State() == old(State()).(nack := !clear,
                                        ack := if HasCrc32(cmd) || cmd.ZsuSalsa20IV? then !clear else old(ack))
    {
      if HasCrc32(cmd) {
        var crc := crc32.Value();
        clear := crc == Zeros(32);
        ack := !clear;
      } else {
        clear := crc8.crc == 0;
        if cmd.ZsuSalsa20IV? { ack := !clear; }
      }
      nack := !clear;
    }

    /** Runs the packet at the front of the queue, if any, and drops it. */
    method Execute(env: Environment)
      requires Valid()
      modifies this, deque, search
      ensures Valid() && State() == AfterExecute(cfg, env, old(State())) && pulses == old(pulses)
    {
      if deque.len == 0 { return; }
      var packet := deque.slots[deque.front];
      ExecuteCommand(packet, env);
      deque.PopFront();
    }

    method ExecuteCommand(packet: Packet, env: Environment)
      requires Valid() && packet.Valid()
      modifies this, search
      ensures Valid() && State() == ExecuteBody(cfg, packet, env, old(State())) && pulses == old(pulses)
    {
      var cmd := packet.Code();
      if cmd.Ping? {
        ExecutePing(packet);
        return;
      }
      if !selected { return; }
      ExecuteSelected(cmd, packet.Parameter(), env);
    }

    method ExecuteSelected(cmd: Command, parameter: nat, env: Environment)
      requires Valid()
      modifies this, search
      ensures Valid() && State() == SelectedBody(cfg, cmd, parameter, env, old(State())) && pulses == old(pulses)
    {
      if cmd.ConfigTransferRate? { ExecuteConfigTransferRate(parameter); }
      else if cmd.BinaryTreeSearch? { ExecuteBinaryTreeSearch(parameter); }
      else if cmd.CvRead? { SetAck(env.cvBit); }
      else if cmd.CvWrite? { SetAck(!env.cvWritten); }
      else { SetAck(env.mixinsAck); }
    }

    method SetAck(ack: bool)
      requires Valid()
      modifies this`ack
      ensures Valid() && State() == old(State()).(ack := ack) && this.ack == ack
    {
      this.ack := ack;
    }

    method ExecuteBinaryTreeSearch(pos: nat)
      requires Valid()
      modifies this`ack, search
      ensures Valid() && pulses == old(pulses)
      ensures State() == old(State()).(ack := Answer(old(search.ignore), cfg.Number(), pos),
                                       ignore := Ignores(old(search.ignore), cfg.Number(), pos))
    {
      ack := search.Search(cfg.Number(), pos);
    }

    method ExecutePing(packet: Packet)
      requires Valid() && packet.Valid()
      modifies this
      ensures Valid() && pulses == old(pulses)
      ensures State() == old(State()).(selected := PingSelects(cfg, packet), ack := PingSelects(cfg, packet))
    {
      var serialNumber, decoderId := NO_NUMBER, NO_NUMBER;
      if packet.size < 9 {
        if packet.buffer[4] != 0 { decoderId := [packet.buffer[4]] + cfg.decoderId[1..]; }
      } else {
        serialNumber := packet.buffer[4..8];
        if packet.size >= 12 { decoderId := packet.buffer[8..12]; }
      }
      if serialNumber != NO_NUMBER && decoderId != NO_NUMBER {
        selected := serialNumber == cfg.serialNumber && decoderId == cfg.decoderId;
      } else if serialNumber != NO_NUMBER {
        selected := serialNumber == cfg.serialNumber;
      } else if decoderId != NO_NUMBER {
        selected := decoderId == cfg.decoderId;
      } else {
        selected := true;
      }
      ack := selected;
    }

    method ExecuteConfigTransferRate(rate: nat)
      requires Valid()
      modifies this
      ensures Valid() && pulses == old(pulses)
      ensures State() == if RateBelow(rate, cfg.rate) then old(State()).(ack := true)
                         else if rate < 5 then old(State()).(rate := rate)
                         else old(State())
    {
      if RateBelow(rate, cfg.rate) { ack := true; }
      else if rate < 5 { transferRateIndex := rate; }
    }
  }
}
