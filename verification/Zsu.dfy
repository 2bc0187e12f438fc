/** The firmware update session of a decoder: consecutive encrypted 64-byte blocks and a final checksum. */
module Zsu {
  import opened Addresses
  import opened Bytes
  import opened Crc

  const BLOCK_SIZE: nat := 64

  function ZeroBlock(): (b: seq<Byte>)
    ensures |b| == BLOCK_SIZE
  {
    seq(BLOCK_SIZE, _ => 0)
  }

  type Block = b: seq<Byte> | |b| == BLOCK_SIZE witness ZeroBlock()

  /** The keystream block a stream cipher context yields: by initialization vector, if any came yet, and block index. */
  type Keystream = (Option<seq<Byte>>, nat) -> Block

  function XorByte(a: Byte, b: Byte): Byte {
    a ^ b
  }

  function XorBlock(a: Block, b: Block): (r: Block) {
    seq(BLOCK_SIZE, i requires 0 <= i < BLOCK_SIZE => XorByte(a[i], b[i]))
  }

  // ----- commands, hardware and state

  datatype Command =
    | Salsa20IV(iv: seq<Byte>)
    | Erase(begin: Address, end: Address)
    | Update(addr: Address, bytes: Block)
    | Crc32Start(begin: Address, end: Address, crc32: Word32)
    | Crc32Result
    | Crc32ResultExit

  /** A command with the answer the flash gives, should it be asked. */
  datatype Event = Event(cmd: Command, success: bool)

  /** Calls into the hardware. */
  datatype Call = EraseZsu(begin: Address, end: Address) | WriteZsu(addr: Address, bytes: Block) | ExitZsu

  datatype Session = Session(
    firstAddr: Option<Address>, lastAddr: Option<Address>, crc32: Word32, crc32valid: bool,
    iv: Option<seq<Byte>>, position: nat)

  const POWER_UP: Session := Session(None, None, CRC32_INIT, false, None, 0)

  /** Whether an update goes to the flash: the first one since the erase, or the one right after the last. */
  predicate Continues(s: Session, addr: Address) {
    s.lastAddr == None || s.lastAddr == Some(addr)
  }

  predicate AddressesMatch(s: Session, begin: Address, end: Address) {
    s.firstAddr == Some(begin) && s.lastAddr == Some(Advance(end, 1))
  }

  /** The session after a command. */
  function Execute(s: Session, e: Event): Session {
    match e.cmd
    case Salsa20IV(iv) => s.(iv := Some(iv), position := 0)
    case Erase(_, _) => s.(crc32 := CRC32_INIT, firstAddr := None, lastAddr := None, crc32valid := false)
    case Update(addr, bytes) =>
      var t := if s.firstAddr == None then s.(firstAddr := Some(addr)) else s;
      if !Continues(s, addr) then t
      else if !e.success then t.(position := s.position + 1)
      else t.(position := s.position + 1, lastAddr := Some(Advance(addr, BLOCK_SIZE)),
              crc32 := Fold(Crc32Next, s.crc32, bytes))
    case Crc32Start(begin, end, crc32) =>
      if AddressesMatch(s, begin, end) then s.(crc32valid := crc32 == Crc32Value(s.crc32)) else s
    case Crc32Result => s
    case Crc32ResultExit => s
  }

  /** The calls a command makes. */
  function Calls(keystream: Keystream, s: Session, cmd: Command): seq<Call> {
    match cmd
    case Erase(begin, end) => [EraseZsu(begin, end)]
    case Update(addr, bytes) =>
      if Continues(s, addr) then [WriteZsu(addr, XorBlock(bytes, keystream(s.iv, s.position)))] else []
    case Crc32ResultExit => if s.crc32valid then [ExitZsu] else []
    case _ => []
  }

  /** Whether the decoder answers in channel 2. */
  function Acks(s: Session, e: Event): bool {
    match e.cmd
    case Salsa20IV(_) => false
    case Erase(_, _) => !e.success
    case Update(addr, _) => if Continues(s, addr) then !e.success else s.lastAddr.value < addr
    case Crc32Start(begin, end, _) => !AddressesMatch(s, begin, end)
    case Crc32Result => !s.crc32valid
    case Crc32ResultExit => !s.crc32valid
  }

  /** The mixin. */
  class Mixin {
    const keystream: Keystream
    var firstAddr: Option<Address>
    var lastAddr: Option<Address>
    var crc32: Word32
    var crc32valid: bool
    var iv: Option<seq<Byte>>
    var position: nat
    var calls: seq<Call>

    constructor (keystream: Keystream)
      ensures this.keystream == keystream && State() == POWER_UP && calls == []
    {
      this.keystream := keystream;
      firstAddr, lastAddr, crc32, crc32valid, iv, position, calls := None, None, CRC32_INIT, false, None, 0, [];
    }

    ghost function State(): Session
      reads this
    {
      Session(firstAddr, lastAddr, crc32, crc32valid, iv, position)
    }

    method ExecuteCommand(e: Event) returns (ack: bool)
      modifies this
      ensures State() == Execute(old(State()), e)
      ensures ack == Acks(old(State()), e)
      ensures calls == old(calls) + Calls(keystream, old(State()), e.cmd)
    {
      match e.cmd {
        case Salsa20IV(iv) =>
          this.iv, position := Some(iv), 0;
          ack := false;
        case Erase(begin, end) =>
          ack := ExecuteErase(begin, end, e.success);
        case Update(addr, bytes) =>
          ack := ExecuteUpdate(addr, bytes, e.success);
        case Crc32Start(begin, end, crc32) =>
          ack := ExecuteCrc32Start(begin, end, crc32);
        case Crc32Result =>
          ack := ExecuteCrc32Result(false);
        case Crc32ResultExit =>
          ack := ExecuteCrc32Result(true);
      }
    }

    method ExecuteErase(begin: Address, end: Address, success: bool) returns (ack: bool)
      modifies this
      ensures State() == Execute(old(State()), Event(Erase(begin, end), success))
      ensures ack == !success && calls == old(calls) + [EraseZsu(begin, end)]
    {
      crc32 := CRC32_INIT;
      firstAddr := None;
      lastAddr := None;
      crc32valid := false;
      calls := calls + [EraseZsu(begin, end)];
      ack := !success;
    }

    method ExecuteUpdate(addr: Address, bytes: Block, success: bool) returns (ack: bool)
      modifies this
      ensures State() == Execute(old(State()), Event(Update(addr, bytes), success))
      ensures ack == Acks(old(State()), Event(Update(addr, bytes), success))
      ensures calls == old(calls) + Calls(keystream, old(State()), Update(addr, bytes))
    {
      if firstAddr == None { firstAddr := Some(addr); }
      // Lost packet
      if lastAddr.Some? && lastAddr.value < addr { return true; }
      // Already written
      if lastAddr.Some? && lastAddr.value > addr { return false; }
      var decrypted := XorBlock(bytes, keystream(iv, position));
      position := position + 1;
      calls := calls + [WriteZsu(addr, decrypted)];
      if success {
        lastAddr := Some(Advance(addr, BLOCK_SIZE));
        crc32 := NextAll(crc32, bytes);
        return false;
      }
      return true;
    }

    /** Feeds a block to the running checksum. */
    static method NextAll(crc: Word32, bytes: seq<Byte>) returns (next: Word32)
      ensures next == Fold(Crc32Next, crc, bytes)
    {
      var register := new Crc32();
      register.crc := crc;
      register.NextAll(bytes);
      next := register.crc;
    }

    method ExecuteCrc32Start(begin: Address, end: Address, crc: Word32) returns (ack: bool)
      modifies this
      ensures State() == Execute(old(State()), Event(Crc32Start(begin, end, crc), false))
      ensures ack == !AddressesMatch(old(State()), begin, end) && calls == old(calls)
    {
      if firstAddr != Some(begin) || lastAddr != Some(Advance(end, 1)) { return true; }
      crc32valid := crc == Crc32Value(crc32);
      return false;
    }

    method ExecuteCrc32Result(exit: bool) returns (ack: bool)
      modifies this`calls
      ensures ack == !crc32valid
      ensures calls == old(calls) + if exit && crc32valid then [ExitZsu] else []
    {
      if exit && crc32valid {
        calls := calls + [ExitZsu];
        return false;
      } else {
        return !crc32valid;
      }
    }
  }
}
