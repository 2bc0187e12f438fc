/** The sound project update session of a decoder: consecutive blocks of any size, an end command and an exit
    command. */
module Zpp {
  import opened Addresses
  import opened Bytes

  datatype Command =
    | ValidQuery(zppId: seq<Byte>, flashSize: nat)
    | LcDcQuery(developerCode: seq<Byte>)
    | Erase(begin: Address, end: Address)
    | Update(addr: Address, bytes: seq<Byte>)
    | UpdateEnd(begin: Address, end: Address)
    | Exit(resetCvs: bool)
    | Other

  /** A command with what the hardware answers: the one hook it asks, and how often an erase fails before it
      succeeds. */
  datatype Event = Event(cmd: Command, success: bool, failures: nat)

  /** Calls into the hardware. */
  datatype Call =
    | ZppValid(zppId: seq<Byte>, flashSize: nat)
    | LoadCodeValid(developerCode: seq<Byte>)
    | EraseZpp(begin: Address, end: Address)
    | WriteZpp(addr: Address, bytes: seq<Byte>)
    | EndZpp
    | ExitZpp(resetCvs: bool)

  datatype Session = Session(firstAddr: Option<Address>, lastAddr: Option<Address>, addrsValid: bool, zppValid: bool)

  const POWER_UP: Session := Session(None, None, false, false)

  predicate Continues(s: Session, addr: Address) {
    s.lastAddr == None || s.lastAddr == Some(addr)
  }

  predicate Leaves(s: Session) {
    s.addrsValid || (s.firstAddr == None && s.lastAddr == None)
  }

  predicate AddressesMatch(s: Session, begin: Address, end: Address) {
    s.firstAddr == Some(begin) && s.lastAddr == Some(end)
  }

  /** An exit that does not leave reads both addresses. */
  predicate Defined(s: Session, cmd: Command) {
    cmd.Exit? && !Leaves(s) ==> s.firstAddr.Some? && s.lastAddr.Some?
  }

  /** Commands that work on an unvalidated project. */
  predicate NeedsNoValidation(cmd: Command) {
    cmd.ValidQuery? || cmd.Exit?
  }

  function Execute(s: Session, e: Event): Session {
    if !NeedsNoValidation(e.cmd) && !s.zppValid then s
    else
      match e.cmd
      case ValidQuery(_, _) => s.(zppValid := e.success)
      case LcDcQuery(_) => s
      case Erase(_, _) => s.(addrsValid := false, firstAddr := None, lastAddr := None)
      case Update(addr, bytes) =>
        var t := if s.firstAddr == None then s.(firstAddr := Some(addr)) else s;
        if Continues(s, addr) && e.success then t.(lastAddr := Some(Advance(addr, |bytes|))) else t
      case UpdateEnd(begin, end) =>
        if s.firstAddr == None || s.lastAddr == None then s
        else if AddressesMatch(s, begin, end) then s.(addrsValid := true, firstAddr := None, lastAddr := None)
        else s.(addrsValid := false)
      case Exit(_) => if Leaves(s) then s else s.(firstAddr := None, lastAddr := None)
      case Other => s
  }

  function Repeat(call: Call, n: nat): seq<Call> {
    seq(n, _ => call)
  }

  function Calls(s: Session, e: Event): seq<Call>
    requires Defined(s, e.cmd)
  {
    if !NeedsNoValidation(e.cmd) && !s.zppValid then []
    else
      match e.cmd
      case ValidQuery(zppId, flashSize) => [ZppValid(zppId, flashSize)]
      case LcDcQuery(developerCode) => [LoadCodeValid(developerCode)]
      case Erase(begin, end) => [EraseZpp(begin, end)]
      case Update(addr, bytes) => if Continues(s, addr) then [WriteZpp(addr, bytes)] else []
      case UpdateEnd(begin, end) => if AddressesMatch(s, begin, end) then [EndZpp] else []
      case Exit(resetCvs) =>
        if Leaves(s) then [ExitZpp(resetCvs)]
        else Repeat(EraseZpp(s.firstAddr.value, s.lastAddr.value), e.failures + 1)
      case Other => []
  }

  /** Whether the decoder answers in channel 2. */
  function Acks(s: Session, e: Event): bool {
    if !NeedsNoValidation(e.cmd) && !s.zppValid then true
    else
      match e.cmd
      case ValidQuery(_, _) => !e.success
      case LcDcQuery(_) => !e.success
      case Erase(_, _) => !e.success
      case Update(addr, _) => if Continues(s, addr) then !e.success else s.lastAddr.value < addr
      case UpdateEnd(begin, end) =>
        if s.firstAddr == None || s.lastAddr == None then false
        else !AddressesMatch(s, begin, end) || !e.success
      case Exit(_) => !Leaves(s)
      case Other => false
  }

  /** The mixin. */
  class Mixin {
    var firstAddr: Option<Address>
    var lastAddr: Option<Address>
    var addrsValid: bool
    var zppValid: bool
    var calls: seq<Call>

    constructor ()
      ensures State() == POWER_UP && calls == []
    {
      firstAddr, lastAddr, addrsValid, zppValid, calls := None, None, false, false, [];
    }

    ghost function State(): Session
      reads this
    {
      Session(firstAddr, lastAddr, addrsValid, zppValid)
    }

    method ExecuteCommand(e: Event) returns (ack: bool)
      requires Defined(State(), e.cmd)
      modifies this
      ensures State() == Execute(old(State()), e)
      ensures ack == Acks(old(State()), e)
      ensures calls == old(calls) + Calls(old(State()), e)
    {
      match e.cmd {
        case ValidQuery(zppId, flashSize) =>
          calls := calls + [ZppValid(zppId, flashSize)];
          zppValid := e.success;
          return !zppValid;
        case Exit(resetCvs) =>
          ack := ExecuteExit(e);
          return;
        case _ =>
      }

      if !zppValid { return true; }
      match e.cmd {
        case LcDcQuery(developerCode) =>
          calls := calls + [LoadCodeValid(developerCode)];
          ack := !e.success;
        case Erase(begin, end) =>
          ack := ExecuteErase(e);
        case Update(addr, bytes) =>
          ack := ExecuteUpdate(e);
        case UpdateEnd(begin, end) =>
          ack := ExecuteEnd(e);
        case _ =>
          ack := false;
      }
    }

    method ExecuteErase(e: Event) returns (ack: bool)
      requires e.cmd.Erase? && zppValid
      modifies this
      ensures State() == Execute(old(State()), e) && ack == Acks(old(State()), e)
      ensures calls == old(calls) + Calls(old(State()), e)
    {
      addrsValid := false;
      firstAddr := None;
      lastAddr := None;
      calls := calls + [EraseZpp(e.cmd.begin, e.cmd.end)];
      ack := !e.success;
    }

    method ExecuteUpdate(e: Event) returns (ack: bool)
      requires e.cmd.Update? && zppValid
      modifies this
      ensures State() == Execute(old(State()), e) && ack == Acks(old(State()), e)
      ensures calls == old(calls) + Calls(old(State()), e)
    {
      var addr, bytes := e.cmd.addr, e.cmd.bytes;
      if firstAddr == None { firstAddr := Some(addr); }
      // Lost packet
      if lastAddr.Some? && lastAddr.value < addr { return true; }
      // Already written
      if lastAddr.Some? && lastAddr.value > addr { return false; }
      calls := calls + [WriteZpp(addr, bytes)];
      if e.success {
        lastAddr := Some(Advance(addr, |bytes|));
        return false;
      }
      return true;
    }

    method ExecuteEnd(e: Event) returns (ack: bool)
      requires e.cmd.UpdateEnd? && zppValid
      modifies this
      ensures State() == Execute(old(State()), e) && ack == Acks(old(State()), e)
      ensures calls == old(calls) + Calls(old(State()), e)
    {
      if firstAddr == None || lastAddr == None { return false; }
      addrsValid := Some(e.cmd.begin) == firstAddr && Some(e.cmd.end) == lastAddr;
      if !addrsValid { return true; }
      firstAddr, lastAddr := None, None;
      calls := calls + [EndZpp];
      ack := !e.success;
    }

    method ExecuteExit(e: Event) returns (ack: bool)
      requires e.cmd.Exit? && Defined(State(), e.cmd)
      modifies this
      ensures State() == Execute(old(State()), e) && ack == Acks(old(State()), e)
      ensures calls == old(calls) + Calls(old(State()), e)
    {
      if addrsValid || (firstAddr == None && lastAddr == None) {
        calls := calls + [ExitZpp(e.cmd.resetCvs)];
        return false;
      }
      var erase := EraseZpp(firstAddr.value, lastAddr.value);
      var erased, tries := false, 0;
      while !erased
        invariant tries <= e.failures + 1 && (erased <==> tries == e.failures + 1)
        invariant calls == old(calls) + Repeat(erase, tries)
        invariant State() == old(State())
        decreases e.failures + 1 - tries
      {
        calls := calls + [erase];
        tries := tries + 1;
        erased := tries > e.failures;
      }
      firstAddr, lastAddr := None, None;
      return true;
    }
  }
}
