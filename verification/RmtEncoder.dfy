/** The resumable hardware encoder: fills a symbol memory that may run full after any symbol. */
module RmtEncoder {
  import opened Bytes
  import opened Timing
  import opened Frame

  /** Two half bits of the same track polarity. */
  datatype Symbol = Symbol(duration0: nat, level0: bool, duration1: nat, level1: bool)

  /** set_symbols: the pair of symbols for a duration, indexed by level. */
  function SymbolOf(duration: nat, level: bool): Symbol {
    Symbol(duration / 2, level, (duration + 1) / 2, level)
  }

  /** The durations the encoder is set up with, which it keeps in a table of its own. */
  function SymbolDuration(bit: SendBit, rate: Rate): nat {
    match rate
    case 0 => (match bit case One => 1200 case Zero => 2400 case Ackreq => 3600)
    case 1 => (match bit case One => 10 case Zero => 20 case Ackreq => 60)
    case 2 => (match bit case One => 20 case Zero => 40 case Ackreq => 60)
    case 3 => (match bit case One => 40 case Zero => 80 case Ackreq => 120)
    case _ => (match bit case One => 75 case Zero => 150 case Ackreq => 225)
  }

  /** Both tables agree. */
  lemma TablesAgree(bit: SendBit, rate: Rate)
    ensures SymbolDuration(bit, rate) == Nominal(bit, rate)
  {
  }

  /** The whole packet without interruption: bit after bit, the level alternating from low. */
  function FrameSymbols(numPreamble: nat, data: seq<Byte>, numAckreq: nat, rate: Rate): (r: seq<Symbol>)
    ensures |r| == |FrameBits(numPreamble, data, numAckreq)|
  {
    var bits := FrameBits(numPreamble, data, numAckreq);
    seq(|bits|, k requires 0 <= k < |bits| => SymbolOf(SymbolDuration(bits[k], rate), k % 2 == 1))
  }

  /** Each symbol is one bit of the frame: constant polarity, halves that add up, and the polarity flips from bit to
      bit. */
  lemma FrameSymbolsAreDurations(numPreamble: nat, data: seq<Byte>, numAckreq: nat, rate: Rate, k: nat)
    requires k < |FrameBits(numPreamble, data, numAckreq)|
    ensures var symbols := FrameSymbols(numPreamble, data, numAckreq, rate);
            var symbol := symbols[k];
            && symbol.duration0 + symbol.duration1 == Durations(FrameBits(numPreamble, data, numAckreq), rate)[k]
            && symbol.duration0 <= symbol.duration1 <= symbol.duration0 + 1
            && symbol.level0 == symbol.level1
            && (k == 0 ==> !symbol.level0)
            && (k > 0 ==> symbol.level0 != symbols[k - 1].level0)
  {
    TablesAgree(FrameBits(numPreamble, data, numAckreq)[k], rate);
    assert k > 0 ==> (k % 2 == 1) != ((k - 1) % 2 == 1);
  }

  /** The bit at each place of a non-empty packet's frame. */
  lemma FrameBitAt(numPreamble: nat, data: seq<Byte>, numAckreq: nat, k: nat)
    requires data != [] && k < numPreamble + 9 * |data| + 1 + numAckreq
    ensures |FrameBits(numPreamble, data, numAckreq)| == numPreamble + 9 * |data| + 1 + numAckreq
    ensures FrameBits(numPreamble, data, numAckreq)[k]
            == if k < numPreamble then One
               else if k < numPreamble + 9 * |data| then DataBits(data)[k - numPreamble]
               else if k == numPreamble + 9 * |data| then One
               else Bit.Ackreq
  {
  }

  lemma StartBitAt(numPreamble: nat, data: seq<Byte>, numAckreq: nat, n: nat)
    requires n < |data|
    ensures |FrameBits(numPreamble, data, numAckreq)| == numPreamble + 9 * |data| + 1 + numAckreq
    ensures FrameBits(numPreamble, data, numAckreq)[numPreamble + 9 * n] == Zero
  {
    FrameBitAt(numPreamble, data, numAckreq, numPreamble + 9 * n);
    DataBitsAt(data, 9 * n);
  }

  lemma DataBitAt(numPreamble: nat, data: seq<Byte>, numAckreq: nat, n: nat, i: nat)
    requires n < |data| && i < 8
    ensures |FrameBits(numPreamble, data, numAckreq)| == numPreamble + 9 * |data| + 1 + numAckreq
    ensures FrameBits(numPreamble, data, numAckreq)[numPreamble + 9 * n + 1 + i] == FromBool(BitOf(data[n], i))
  {
    var k := 9 * n + 1 + i;
    FrameBitAt(numPreamble, data, numAckreq, numPreamble + k);
    DataBitsAt(data, k);
    assert k / 9 == n && k % 9 == 1 + i;
  }

  /** What the copy encoder does with one symbol: no room; written; written into the last place. */
  datatype Reply = Full | Wrote | WroteLast

  /** The copy encoder; how much room it finds is the choice of `replies`. */
  class CopyEncoder {
    const replies: nat -> Reply
    var clock: nat
    var memory: seq<Symbol>

    constructor (replies: nat -> Reply)
      ensures this.replies == replies && clock == 0 && memory == []
    {
      this.replies, clock, memory := replies, 0, [];
    }

    method Encode(symbol: Symbol) returns (encoded: nat, complete: bool, memFull: bool)
      modifies this
      ensures clock == old(clock) + 1
      ensures encoded == if replies(old(clock)) == Full then 0 else 1
      ensures complete <==> encoded == 1
      ensures memFull <==> replies(old(clock)) != Wrote
      ensures memory == old(memory) + if encoded == 1 then [symbol] else []
    {
      var reply := replies(clock);
      clock := clock + 1;
      if reply == Full { return 0, false, true; }
      memory := memory + [symbol];
      return 1, true, reply == WroteLast;
    }
  }

  datatype State = Preamble | Start | Data | End | Ackreq

  class MduEncoder {
    const copyEncoder: CopyEncoder
    const rate: Rate
    const numPreamble: nat
    const numAckreq: nat
    var lastBitIndex: nat
    var lastByteIndex: nat
    var state: State
    var lastLevel: bool
    ghost var done: seq<Symbol>
    ghost var packets: nat

    constructor (copyEncoder: CopyEncoder, rate: Rate, numPreamble: nat, numAckreq: nat)
      requires TX_MIN_PREAMBLE_BITS <= numPreamble <= TX_MAX_PREAMBLE_BITS
      requires numAckreq == 0 || TX_MIN_ACKREQ_BITS <= numAckreq <= TX_MAX_ACKREQ_BITS
      ensures this.copyEncoder == copyEncoder && this.rate == rate
      ensures this.numPreamble == numPreamble && this.numAckreq == numAckreq
      ensures packets == 0 && AtStart() && forall data: seq<Byte> :: data != [] ==> Inv(data)
    {
      this.copyEncoder, this.rate, this.numPreamble, this.numAckreq := copyEncoder, rate, numPreamble, numAckreq;
      lastBitIndex, lastByteIndex, state, lastLevel := 0, 0, Preamble, false;
      done, packets := copyEncoder.memory, 0;
    }

    ghost predicate AtStart()
      reads this
    {
      state == Preamble && lastByteIndex == 0 && lastBitIndex == 0 && !lastLevel
    }

    ghost function Symbols(data: seq<Byte>): seq<Symbol> {
      FrameSymbols(numPreamble, data, numAckreq, rate)
    }

    /** How many symbols of the packet the encoder's state says are out. */
    ghost function Position(data: seq<Byte>): nat
      reads this
    {
      match state
      case Preamble => lastByteIndex
      case Start => numPreamble + 9 * lastByteIndex
      case Data => numPreamble + 9 * lastByteIndex + 1 + lastBitIndex
      case End => numPreamble + 9 * |data|
      case Ackreq => numPreamble + 9 * |data| + 1 + lastByteIndex
    }

    ghost predicate IndicesInRange(data: seq<Byte>)
      reads this
    {
      match state
      case Preamble => lastByteIndex < numPreamble && lastBitIndex == 0
      case Start => lastByteIndex < |data| && lastBitIndex == 0
      case Data => lastByteIndex < |data| && lastBitIndex <= 8
      case End => lastByteIndex == 0 && lastBitIndex == 0
      case Ackreq => (lastByteIndex < numAckreq || lastByteIndex == numAckreq == 0) && lastBitIndex == 0
    }

    /** After earlier packets the memory holds exactly this packet's first `position` symbols, and the level is the next
        symbol's. */
    ghost predicate Out(data: seq<Byte>, position: nat)
      reads this, copyEncoder
    {
      && position <= |Symbols(data)|
      && copyEncoder.memory == done + Symbols(data)[..position]
      && (lastLevel <==> position % 2 == 1)
    }

    ghost predicate Inv(data: seq<Byte>)
      reads this, copyEncoder
    {
      && data != [] && IndicesInRange(data)
      && Out(data, Position(data))
    }

    ghost predicate Wrotes(first: nat, last: nat) {
      forall t :: first <= t < last ==> copyEncoder.replies(t) == Wrote
    }

    /** One if the last symbol offered found no room. */
    ghost function Refused(last: nat): nat
      requires last > 0
    {
      if copyEncoder.replies(last - 1) == Full then 1 else 0
    }

    /** rmt_encode_mdu_bit: offers one symbol of the current level and flips the level if it was taken. */
    method EncodeBit(bit: SendBit, ghost data: seq<Byte>, ghost position: nat)
      returns (encoded: nat, complete: bool, memFull: bool)
      requires Out(data, position) && position < |Symbols(data)|
      requires FrameBits(numPreamble, data, numAckreq)[position] == bit
      modifies this`lastLevel, copyEncoder
      ensures Out(data, position + encoded)
      ensures copyEncoder.clock == old(copyEncoder.clock) + 1
      ensures var reply := copyEncoder.replies(old(copyEncoder.clock));
              && encoded == (if reply == Full then 0 else 1)
              && (complete <==> encoded == 1)
              && (memFull <==> reply != Wrote)
    {
      encoded, complete, memFull := copyEncoder.Encode(SymbolOf(SymbolDuration(bit, rate), lastLevel));
      if encoded != 0 { lastLevel := !lastLevel; }
      assert Symbols(data)[..position] + [Symbols(data)[position]] == Symbols(data)[..position + 1];
    }

    /** What every phase and every call promises, whatever room there was. */
    twostate predicate Progressed(data: seq<Byte>, new encoded: nat, new memFull: bool)
      reads this, copyEncoder
    {
      && Inv(data)
      && done == old(done) && packets == old(packets)
      && |copyEncoder.memory| == |old(copyEncoder.memory)| + encoded
      && old(copyEncoder.clock) <= copyEncoder.clock
      && (memFull ==>
            && old(copyEncoder.clock) < copyEncoder.clock
            && Wrotes(old(copyEncoder.clock), copyEncoder.clock - 1)
            && copyEncoder.replies(copyEncoder.clock - 1) != Wrote
            && encoded + Refused(copyEncoder.clock) == copyEncoder.clock - old(copyEncoder.clock))
      && (!memFull ==>
            && Wrotes(old(copyEncoder.clock), copyEncoder.clock)
            && encoded == copyEncoder.clock - old(copyEncoder.clock))
    }

    /** What one copied symbol promises. */
    twostate predicate Turned(data: seq<Byte>, new encoded: nat, new memFull: bool)
      reads this, copyEncoder
    {
      && Inv(data)
      && done == old(done) && packets == old(packets)
      && |copyEncoder.memory| == |old(copyEncoder.memory)| + encoded
      && copyEncoder.clock == old(copyEncoder.clock) + 1
      && (memFull <==> copyEncoder.replies(old(copyEncoder.clock)) != Wrote)
      && encoded == if copyEncoder.replies(old(copyEncoder.clock)) == Full then 0 else 1
    }

    /** One turn of the preamble loop. */
    method PreambleTurn(ghost data: seq<Byte>) returns (encoded: nat, memFull: bool)
      requires Inv(data) && state == Preamble
      modifies this, copyEncoder
      ensures Turned(data, encoded, memFull)
      ensures state == Start || (state == Preamble && lastByteIndex == old(lastByteIndex) + encoded)
    {
      var complete;
      FrameBitAt(numPreamble, data, numAckreq, lastByteIndex);
      encoded, complete, memFull := EncodeBit(One, data, lastByteIndex);
      CountPreamble(data, encoded, complete);
    }

    /** Counts a preamble symbol; after the last one comes the first start bit. */
    method CountPreamble(ghost data: seq<Byte>, encoded: nat, complete: bool)
      requires data != [] && state == Preamble && lastByteIndex < numPreamble && lastBitIndex == 0
      requires encoded == (if complete then 1 else 0) && Out(data, lastByteIndex + encoded)
      modifies this`lastByteIndex, this`state
      ensures Inv(data)
      ensures state == Start || (state == Preamble && lastByteIndex == old(lastByteIndex) + encoded)
    {
      lastByteIndex := lastByteIndex + encoded;
      if complete && lastByteIndex >= numPreamble {
        lastByteIndex := 0;
        state := Start;
      }
    }

    method EncodePreamble(ghost data: seq<Byte>) returns (encoded: nat, memFull: bool)
      requires Inv(data) && state == Preamble
      modifies this, copyEncoder
      ensures Progressed(data, encoded, memFull)
      ensures state == Start || (memFull && state == Preamble)
    {
      encoded, memFull := 0, false;
      while state == Preamble
        invariant Progressed(data, encoded, memFull) && !memFull
        invariant state == Preamble || state == Start
        decreases state == Preamble, numPreamble - lastByteIndex
      {
        var tmp;
        tmp, memFull := PreambleTurn(data);
        encoded := encoded + tmp;
        if memFull { break; }
      }
    }

    method EncodeStart(ghost data: seq<Byte>) returns (encoded: nat, memFull: bool)
      requires Inv(data) && state == Start
      modifies this, copyEncoder
      ensures Progressed(data, encoded, memFull)
      ensures lastByteIndex == old(lastByteIndex)
      ensures state == Data || (memFull && state == Start)
    {
      encoded, memFull := StartTurn(data);
    }

    /** The start bit, in one turn. */
    method StartTurn(ghost data: seq<Byte>) returns (encoded: nat, memFull: bool)
      requires Inv(data) && state == Start
      modifies this, copyEncoder
      ensures Turned(data, encoded, memFull)
      ensures lastByteIndex == old(lastByteIndex)
      ensures state == if encoded == 1 then Data else Start
    {
      var complete;
      ghost var position := Position(data);
      StartBitAt(numPreamble, data, numAckreq, lastByteIndex);
      encoded, complete, memFull := EncodeBit(Zero, data, position);
      assert Position(data) == position;
      if complete { StartData(data); }
    }

    /** The start bit is out: on to the byte's bits. */
    method StartData(ghost data: seq<Byte>)
      requires data != [] && state == Start && lastByteIndex < |data| && lastBitIndex == 0
      requires Out(data, Position(data) + 1)
      modifies this`state
      ensures Inv(data) && state == Data
    {
      state := Data;
    }

    /** One turn of the data loop. */
    method DataTurn(data: seq<Byte>) returns (encoded: nat, memFull: bool)
      requires Inv(data) && state == Data && lastBitIndex < 8
      modifies this, copyEncoder
      ensures Turned(data, encoded, memFull)
      ensures state == Data && lastByteIndex == old(lastByteIndex) && lastBitIndex == old(lastBitIndex) + encoded
    {
      var bit := BitOf(data[lastByteIndex], lastBitIndex);
      var complete;
      ghost var position := Position(data);
      DataBitAt(numPreamble, data, numAckreq, lastByteIndex, lastBitIndex);
      encoded, complete, memFull := EncodeBit(FromBool(bit), data, position);
      lastBitIndex := lastBitIndex + encoded;
      assert Position(data) == position + encoded;
    }

    /** The bits of a byte that are still to come. */
    method EncodeBits(data: seq<Byte>) returns (encoded: nat, memFull: bool)
      requires Inv(data) && state == Data
      modifies this, copyEncoder
      ensures Progressed(data, encoded, memFull)
      ensures state == Data && lastByteIndex == old(lastByteIndex)
      ensures memFull || lastBitIndex == 8
    {
      encoded, memFull := 0, false;
      while lastBitIndex < 8
        invariant Progressed(data, encoded, memFull) && !memFull
        invariant state == Data && lastByteIndex == old(lastByteIndex)
        decreases 8 - lastBitIndex
      {
        var tmp;
        tmp, memFull := DataTurn(data);
        encoded := encoded + tmp;
        if memFull { return; }
      }
    }

    method EncodeData(data: seq<Byte>) returns (encoded: nat, memFull: bool)
      requires Inv(data) && state == Data
      modifies this, copyEncoder
      ensures Progressed(data, encoded, memFull)
      ensures memFull ==> state == Data
      ensures !memFull ==> state == End || (state == Start && lastByteIndex == old(lastByteIndex) + 1)
    {
      encoded, memFull := EncodeBits(data);
      if memFull { return; }
      FinishByte(data);
    }

    /** All eight bits are out: on to the next byte or to the end bit. */
    method FinishByte(data: seq<Byte>)
      requires Inv(data) && state == Data && lastBitIndex == 8
      modifies this`lastBitIndex, this`lastByteIndex, this`state
      ensures Inv(data)
      ensures state == End || (state == Start && lastByteIndex == old(lastByteIndex) + 1)
    {
      lastBitIndex := 0;
      lastByteIndex := lastByteIndex + 1;
      if lastByteIndex < |data| {
        state := Start;
      } else {
        lastByteIndex := 0;
        state := End;
      }
    }

    method EncodeEnd(ghost data: seq<Byte>) returns (encoded: nat, memFull: bool)
      requires Inv(data) && state == End
      modifies this, copyEncoder
      ensures Progressed(data, encoded, memFull)
      ensures (state == State.Ackreq && lastByteIndex == 0) || (memFull && state == End)
    {
      var complete;
      FrameBitAt(numPreamble, data, numAckreq, Position(data));
      encoded, complete, memFull := EncodeBit(One, data, Position(data));
      if complete { state := State.Ackreq; }
    }

    /** What a call promises: it stops for lack of room with the packet's symbols so far in memory,
        or the state wraps to the preamble with exactly the whole packet in memory. */
    twostate predicate Called(data: seq<Byte>, new encoded: nat, new complete: bool, new memFull: bool)
      reads this, copyEncoder
    {
      && Inv(data)
      && |copyEncoder.memory| == |old(copyEncoder.memory)| + encoded
      && old(copyEncoder.clock) <= copyEncoder.clock
      && (old(copyEncoder.clock) < copyEncoder.clock ==> Wrotes(old(copyEncoder.clock), copyEncoder.clock - 1))
      && if packets == old(packets) then
           && done == old(done) && memFull && old(copyEncoder.clock) < copyEncoder.clock
           && copyEncoder.replies(copyEncoder.clock - 1) != Wrote
           && encoded + Refused(copyEncoder.clock) == copyEncoder.clock - old(copyEncoder.clock)
           && (complete <==> EarlyComplete())
         else
           && packets == old(packets) + 1 && AtStart() && complete
           && encoded == copyEncoder.clock - old(copyEncoder.clock)
           && done == old(done) + Symbols(data)
    }

    /** An ackreq symbol short of the last one just filled the memory. */
    ghost predicate EarlyComplete()
      reads this, copyEncoder
    {
      && state == State.Ackreq && lastByteIndex > 0
      && copyEncoder.clock > 0 && copyEncoder.replies(copyEncoder.clock - 1) == WroteLast
    }

    /** End of packet: back to the preamble at low level. */
    method Wrap(ghost data: seq<Byte>)
      requires data != [] && Out(data, |Symbols(data)|) && numPreamble > 0
      modifies this
      ensures Inv(data) && AtStart()
      ensures packets == old(packets) + 1 && done == old(done) + Symbols(data)
    {
      lastBitIndex, lastByteIndex, state, lastLevel := 0, 0, Preamble, false;
      done, packets := copyEncoder.memory, packets + 1;
      assert Symbols(data)[..|Symbols(data)|] == Symbols(data);
    }

    /** rmt_mdu_encoder_reset: whatever was under way is given up. */
    method Reset()
      requires numPreamble > 0
      modifies this
      ensures AtStart() && done == copyEncoder.memory && packets == old(packets)
      ensures forall data: seq<Byte> :: data != [] ==> Inv(data)
    {
      lastBitIndex, lastByteIndex, state, lastLevel := 0, 0, Preamble, false;
      done := copyEncoder.memory;
    }

    /** One turn of the ackreq loop. */
    method AckreqTurn(ghost data: seq<Byte>) returns (encoded: nat, complete: bool, memFull: bool)
      requires Inv(data) && state == State.Ackreq && numAckreq > 0 && numPreamble > 0
      modifies this, copyEncoder
      ensures Inv(data)
      ensures |copyEncoder.memory| == |old(copyEncoder.memory)| + encoded
      ensures copyEncoder.clock == old(copyEncoder.clock) + 1
      ensures memFull <==> copyEncoder.replies(old(copyEncoder.clock)) != Wrote
      ensures complete <==> copyEncoder.replies(old(copyEncoder.clock)) != Full
      ensures encoded == if complete then 1 else 0
      ensures packets == old(packets) <==> !complete || old(lastByteIndex) + 1 < numAckreq
      ensures if packets == old(packets)
              then && state == State.Ackreq && done == old(done)
                   && lastByteIndex == old(lastByteIndex) + if complete then 1 else 0
              else packets == old(packets) + 1 && AtStart() && complete && done == old(done) + Symbols(data)
    {
      FrameBitAt(numPreamble, data, numAckreq, Position(data));
      ghost var position := Position(data);
      encoded, complete, memFull := EncodeBit(Bit.Ackreq, data, position);
      lastByteIndex := lastByteIndex + encoded;
      if complete && lastByteIndex >= numAckreq { Wrap(data); }
    }

    method EncodeAckreq(ghost data: seq<Byte>) returns (encoded: nat, complete: bool, memFull: bool)
      requires Inv(data) && state == State.Ackreq && numPreamble > 0
      modifies this, copyEncoder
      ensures Called(data, encoded, complete, memFull)
    {
      encoded, complete, memFull := 0, false, false;
      if numAckreq == 0 {
        FrameBitAt(numPreamble, data, numAckreq, 0);
        complete := true;
        Wrap(data);
        return;
      }
      while state == State.Ackreq
        invariant Inv(data) && !memFull
        invariant |copyEncoder.memory| == |old(copyEncoder.memory)| + encoded
        invariant encoded == copyEncoder.clock - old(copyEncoder.clock)
        invariant Wrotes(old(copyEncoder.clock), copyEncoder.clock)
        invariant state == State.Ackreq ==> packets == old(packets) && done == old(done)
        invariant state != State.Ackreq ==>
          packets == old(packets) + 1 && AtStart() && complete && done == old(done) + Symbols(data)
        decreases state == State.Ackreq, numAckreq - lastByteIndex
      {
        var tmp;
        tmp, complete, memFull := AckreqTurn(data);
        encoded := encoded + tmp;
        if memFull { break; }
      }
    }

    /** The cycle through the start bit and data phases, entered at either. */
    method EncodeBytes(data: seq<Byte>) returns (encoded: nat, memFull: bool)
      requires Inv(data) && (state == Start || state == Data)
      modifies this, copyEncoder
      ensures Progressed(data, encoded, memFull)
      ensures memFull || state == End
      ensures state != Preamble && state != State.Ackreq
    {
      encoded, memFull := 0, false;
      var tmp;
      while state == Start || state == Data
        invariant Progressed(data, encoded, memFull) && !memFull
        invariant state == Start || state == Data || state == End
        decreases if state == Start || state == Data then |data| - lastByteIndex else 0
      {
        if state == Start {
          tmp, memFull := EncodeStart(data);
          encoded := encoded + tmp;
          if memFull { return; }
        }
        tmp, memFull := EncodeData(data);
        encoded := encoded + tmp;
        if memFull { return; }
      }
    }

    /** The phases up to the end bit, entered where the last call stopped. */
    method EncodePacket(data: seq<Byte>) returns (encoded: nat, memFull: bool)
      requires Inv(data)
      modifies this, copyEncoder
      ensures Progressed(data, encoded, memFull)
      ensures memFull || state == State.Ackreq
      ensures memFull && state == State.Ackreq ==> lastByteIndex == 0
    {
      encoded, memFull := 0, false;
      var tmp;
      if state == Preamble {
        encoded, memFull := EncodePreamble(data);
        if memFull { return; }
      }
      if state == Start || state == Data {
        tmp, memFull := EncodeBytes(data);
        encoded := encoded + tmp;
        if memFull { return; }
      }
      if state == End {
        tmp, memFull := EncodeEnd(data);
        encoded := encoded + tmp;
      }
    }

    /** rmt_encode_mdu: resumes in the phase where it stopped and falls through the others. */
    method Encode(data: seq<Byte>) returns (encoded: nat, complete: bool, memFull: bool)
      requires Inv(data) && numPreamble > 0
      modifies this, copyEncoder
      ensures Called(data, encoded, complete, memFull)
    {
      var tmp;
      encoded, memFull := EncodePacket(data);
      if memFull { return encoded, false, true; }
      tmp, complete, memFull := EncodeAckreq(data);
      encoded := encoded + tmp;
    }

    /** How often memory was found full. */
    ghost function Refusals(first: nat, last: nat): nat
      requires first <= last
    {
      if first == last then 0 else Refusals(first, last - 1) + Refused(last)
    }

    /** A call that stops has found no room at most once: at its last symbol. */
    lemma {:induction false} RefusalsOfCall(first: nat, middle: nat, last: nat)
      requires first <= middle < last && Wrotes(middle, last - 1)
      ensures Refusals(first, last) == Refusals(first, middle) + Refused(last)
      decreases last - middle
    {
      if middle < last - 1 {
        RefusalsOfCall(first, middle, last - 1);
        assert copyEncoder.replies(last - 2) == Wrote;
      }
    }

    /** Calls again and again until the packet is out, at most `calls` times: whatever room each call found,
        the memory holds an initial part of the uninterrupted symbols, all of them once the state has wrapped,
        which takes no more calls than symbols, one, and the times no room was found at all. */
    method EncodeInPieces(data: seq<Byte>, calls: nat) returns (wrapped: bool)
      requires Inv(data) && AtStart() && numPreamble > 0
      modifies this, copyEncoder
      ensures Inv(data) && old(copyEncoder.clock) <= copyEncoder.clock
      ensures wrapped ==> AtStart() && copyEncoder.memory == old(copyEncoder.memory) + Symbols(data)
      ensures !wrapped ==> copyEncoder.memory == old(copyEncoder.memory) + Symbols(data)[..Position(data)]
      ensures !wrapped ==> calls <= |Symbols(data)| + Refusals(old(copyEncoder.clock), copyEncoder.clock)
    {
      wrapped := false;
      assert Symbols(data)[..0] == [] && copyEncoder.memory == done + [];
      for n := 0 to calls
        invariant Inv(data) && !wrapped && packets == old(packets) && done == old(copyEncoder.memory)
        invariant old(copyEncoder.clock) <= copyEncoder.clock
        invariant n <= Position(data) + Refusals(old(copyEncoder.clock), copyEncoder.clock)
      {
        ghost var clock := copyEncoder.clock;
        var _, complete, memFull := Encode(data);
        if complete && state == Preamble {
          assert copyEncoder.memory == done + Symbols(data)[..0];
          return true;
        }
        RefusalsOfCall(old(copyEncoder.clock), clock, copyEncoder.clock);
        assert |copyEncoder.memory| == |done| + Position(data);
      }
    }

    /** What one call makes of the room it finds. With `room` symbols copied before the copy encoder reports full
        memory, the call completes although the packet is not out exactly if the symbol that fills the memory is an
        ackreq symbol short of the last. */
    method EncodeIntoRoom(data: seq<Byte>, ghost room: nat) returns (encoded: nat, complete: bool, memFull: bool)
      requires Inv(data) && numPreamble > 0 && Wrotes(copyEncoder.clock, copyEncoder.clock + room)
      requires copyEncoder.replies(copyEncoder.clock + room) != Wrote
      modifies this, copyEncoder
      ensures Called(data, encoded, complete, memFull)
      ensures complete && packets == old(packets)
         <==> && copyEncoder.replies(old(copyEncoder.clock) + room) == WroteLast
              && numPreamble + 9 * |data| + 1 < old(Position(data)) + room + 1 < |Symbols(data)|
    {
      FrameBitAt(numPreamble, data, numAckreq, 0);
      encoded, complete, memFull := Encode(data);
    }
  }
}
