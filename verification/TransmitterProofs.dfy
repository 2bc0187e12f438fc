/** What a transmitter sends and calls over every run, by what it was told and when. */
module TransmitterProofs {
  import opened Bytes
  import opened Timing
  import opened Frame
  import opened Transmitter

  // ----- a reference history that knows of promises only

  /** What is still owed: the packet accepted last with the ackreq bits configured then, less a bit a crossing. */
  function Owed(events: seq<Event>): seq<SendBit> {
    if events == [] then []
    else
      var before := events[..|events| - 1];
      match events[|events| - 1]
      case Crossing => if Owed(before) == [] then [] else Owed(before)[1..]
      case Asked(Send(bits)) =>
        if Owed(before) == [] then bits + Repeat(Ackreq, Told(before).numAckreq) else Owed(before)
      case Asked(_) => Owed(before)
  }

  /** The configuration told last while nothing was owed; 14 preamble and 10 ackreq bits until then. */
  function Told(events: seq<Event>): Config {
    if events == [] then Config(14, 10)
    else
      var before := events[..|events| - 1];
      match events[|events| - 1]
      case Asked(Init(cfg)) => if Owed(before) == [] then cfg else Told(before)
      case _ => Told(before)
  }

  /** The transfer rate set last while nothing was owed. */
  function RateSet(events: seq<Event>): Rate {
    if events == [] then DEFAULT
    else
      var before := events[..|events| - 1];
      match events[|events| - 1]
      case Asked(SetTransferRate(rate)) => if Owed(before) == [] then rate else RateSet(before)
      case _ => RateSet(before)
  }

  /** Each crossing pays the first bit owed, or a one, at the rate set. */
  function Paid(events: seq<Event>): seq<nat> {
    if events == [] then []
    else
      var before := events[..|events| - 1];
      match events[|events| - 1]
      case Crossing => Paid(before) + [Meant(if Owed(before) == [] then One else Owed(before)[0], RateSet(before))]
      case Asked(_) => Paid(before)
  }

  /** Configurations are asked for within their bounds. */
  ghost predicate Proper(events: seq<Event>) {
    forall e :: e in events && e.Asked? && e.request.Init? ==> ValidConfig(e.request.cfg)
  }

  ghost predicate Tells(s: Tx, events: seq<Event>) {
    WellFormed(s) && Pending(s) == Owed(events) && s.cfg == Told(events) && s.rate == RateSet(events)
  }

  lemma {:induction false} RunSnoc(s: Tx, events: seq<Event>, e: Event)
    ensures Run(s, events + [e])
         == match e case Crossing => AfterTransmit(Run(s, events)) case Asked(request) => Ask(Run(s, events), request).0
    ensures Sent(s, events + [e])
         == Sent(s, events)
            + if e.Crossing? then [Nominal(NextBit(Run(s, events)), Run(s, events).rate)] else []
    decreases |events|
  {
    var all := events + [e];
    if events == [] {
      assert all == [e] && all[1..] == [];
    } else {
      assert all[0] == events[0] && all[1..] == events[1..] + [e];
      match events[0] {
        case Crossing => RunSnoc(AfterTransmit(s), events[1..], e);
        case Asked(request) => RunSnoc(Ask(s, request).0, events[1..], e);
      }
    }
  }

  lemma {:induction false} AskTells(s: Tx, before: seq<Event>, request: Request)
    requires Tells(s, before) && (request.Init? ==> ValidConfig(request.cfg))
    ensures Tells(Ask(s, request).0, before + [Asked(request)])
    ensures Ask(s, request).1 <==> Owed(before) == []
  {
    assert (before + [Asked(request)])[..|before|] == before;
    IdleWhenNothingPending(s);
  }

  /** Over every run the transmitter owes, is configured and is timed as it was told while it owed nothing: exactly then
      a request is taken. */
  lemma {:induction false} TransmitterTellsHistory(events: seq<Event>)
    requires Proper(events)
    ensures Tells(Run(INITIAL, events), events)
    ensures 14 <= Told(events).numPreamble <= 30 && 10 <= Told(events).numAckreq <= 30
    ensures forall request :: Ask(Run(INITIAL, events), request).1 <==> Owed(events) == []
  {
    if events != [] {
      var before, e := events[..|events| - 1], events[|events| - 1];
      assert events == before + [e];
      TransmitterTellsHistory(before);
      RunSnoc(INITIAL, before, e);
      match e {
        case Crossing => TransmitSendsPending(Run(INITIAL, before));
        case Asked(request) => AskTells(Run(INITIAL, before), before, request);
      }
    }
    IdleWhenNothingPending(Run(INITIAL, events));
  }

  /** Over every run each duration sent is that of the bit owed, at the rate set last. */
  lemma {:induction false} SentIsPaid(events: seq<Event>)
    requires Proper(events)
    ensures Sent(INITIAL, events) == Paid(events)
  {
    if events != [] {
      var before, e := events[..|events| - 1], events[|events| - 1];
      assert events == before + [e];
      SentIsPaid(before);
      RunSnoc(INITIAL, before, e);
      if e.Crossing? {
        TransmitterTellsHistory(before);
        TransmitSendsPending(Run(INITIAL, before));
        WindowIsTolerance(0, NextBit(Run(INITIAL, before)), RateSet(before));
      }
    }
  }

  // ----- one packet

  /** What handing over a packet adds to a run. */
  function Handed(events: seq<Event>, bytes: seq<Byte>, more: seq<Event>): seq<Event> {
    events + [Asked(Send(PacketBits(Run(INITIAL, events).cfg.numPreamble, bytes)))] + more
  }

  function MeantAll(bits: seq<SendBit>, rate: Rate): (r: seq<nat>)
    ensures |r| == |bits|
  {
    seq(|bits|, i requires 0 <= i < |bits| => Meant(bits[i], rate))
  }

  /** The bits of `frame` from `paid` on are still owed, those before it were paid after `first`. */
  ghost predicate Underway(events: seq<Event>, frame: seq<SendBit>, paid: nat, first: seq<nat>, rate: Rate,
                           cfg: Config) {
    && paid <= |frame| && Owed(events) == frame[paid..] && RateSet(events) == rate && Told(events) == cfg
    && Paid(events) == first + MeantAll(frame[..paid], rate)
  }

  lemma {:induction false} UnderwayStep(before: seq<Event>, e: Event, frame: seq<SendBit>, paid: nat,
                                        first: seq<nat>, rate: Rate, cfg: Config)
    requires Underway(before, frame, paid, first, rate, cfg) && paid < |frame|
    ensures Underway(before + [e], frame, if e.Crossing? then paid + 1 else paid, first, rate, cfg)
  {
    assert (before + [e])[..|before|] == before;
    if e.Crossing? {
      assert frame[..paid + 1] == frame[..paid] + [frame[paid]];
      assert MeantAll(frame[..paid + 1], rate) == MeantAll(frame[..paid], rate) + [Meant(frame[paid], rate)];
      assert frame[paid..][1..] == frame[paid + 1..];
    }
  }

  /** Until the frame is out, what is asked for meanwhile changes nothing. */
  lemma {:induction false} FrameIsOwed(events: seq<Event>, bytes: seq<Byte>, more: seq<Event>)
    requires Proper(events) && Owed(events) == []
    requires Crossings(more) < |FrameBits(Told(events).numPreamble, bytes, Told(events).numAckreq)|
    ensures var frame := FrameBits(Told(events).numPreamble, bytes, Told(events).numAckreq);
            Underway(Handed(events, bytes, more), frame, Crossings(more), Paid(events), RateSet(events), Told(events))
    decreases |more|
  {
    TransmitterTellsHistory(events);
    var frame := FrameBits(Told(events).numPreamble, bytes, Told(events).numAckreq);
    if more == [] {
      HandedIsUnderway(events, bytes);
    } else {
      var front, e := more[..|more| - 1], more[|more| - 1];
      CrossingsSnoc(front, e);
      assert more == front + [e];
      FrameIsOwed(events, bytes, front);
      UnderwayStep(Handed(events, bytes, front), e, frame, Crossings(front), Paid(events),
                   RateSet(events), Told(events));
      assert Handed(events, bytes, more) == Handed(events, bytes, front) + [e];
    }
  }

  lemma {:induction false} HandedIsUnderway(events: seq<Event>, bytes: seq<Byte>)
    requires Proper(events) && Owed(events) == []
    ensures var frame := FrameBits(Told(events).numPreamble, bytes, Told(events).numAckreq);
            Underway(Handed(events, bytes, []), frame, 0, Paid(events), RateSet(events), Told(events))
  {
    TransmitterTellsHistory(events);
    var all := Handed(events, bytes, []);
    assert all[..|all| - 1] == events;
  }

  lemma ProperHanded(events: seq<Event>, bytes: seq<Byte>, more: seq<Event>)
    requires Proper(events) && Proper(more)
    ensures Proper(Handed(events, bytes, more))
  {
  }

  lemma {:induction false} CrossingsSnoc(events: seq<Event>, e: Event)
    ensures Crossings(events + [e]) == Crossings(events) + if e.Crossing? then 1 else 0
  {
    var all := events + [e];
    if events == [] {
      assert all == [e] && all[1..] == [];
    } else {
      assert all[0] == events[0] && all[1..] == events[1..] + [e];
      CrossingsSnoc(events[1..], e);
    }
  }

  /** A packet handed over while nothing is owed goes out with the preamble and ackreq bits configured last, each bit as
      long as the rate set last says, whatever is asked for until it is out. */
  lemma {:induction false} PacketGoesOutAsTold(events: seq<Event>, bytes: seq<Byte>, more: seq<Event>)
    requires Proper(events) && Proper(more) && Owed(events) == []
    requires Crossings(more) + 1 == |FrameBits(Told(events).numPreamble, bytes, Told(events).numAckreq)|
    ensures var frame := FrameBits(Told(events).numPreamble, bytes, Told(events).numAckreq);
            Sent(INITIAL, Handed(events, bytes, more) + [Crossing])
            == Sent(INITIAL, events) + MeantAll(frame, RateSet(events))
  {
    var frame := FrameBits(Told(events).numPreamble, bytes, Told(events).numAckreq);
    var all := Handed(events, bytes, more) + [Crossing];
    FrameIsOwed(events, bytes, more);
    ProperHanded(events, bytes, more);
    SentIsPaid(events);
    SentIsPaid(all);
    assert all[..|all| - 1] == Handed(events, bytes, more);
    assert frame == frame[..|frame| - 1] + [frame[|frame| - 1]];
  }

  /** And while it does, the command station is called at these crossings and at no others: at the first ackreq bit, at
      bits 2 to 4 and 6 to 8 for the two channels, and at the last one. */
  lemma {:induction false} PhaseIsCalled(events: seq<Event>, bytes: seq<Byte>, more: seq<Event>)
    requires Proper(events) && Proper(more) && Owed(events) == []
    requires Crossings(more) < |FrameBits(Told(events).numPreamble, bytes, Told(events).numAckreq)|
    ensures var hooks := Hooks(Run(INITIAL, Handed(events, bytes, more)));
            var place := Crossings(more) - |PacketBits(Told(events).numPreamble, bytes)|;
            && |hooks| <= 1
            && (hooks == [Begin] <==> place == 0)
            && (hooks == [End] <==> place == Told(events).numAckreq - 1)
            && forall count :: && (hooks == [Channel1(count)] <==> place == count && count in {2, 3, 4})
                               && (hooks == [Channel2(count)] <==> place == count && count in {6, 7, 8})
  {
    RunKeepsRest(events, bytes, more);
    HooksAt(Run(INITIAL, Handed(events, bytes, more)));
  }

  /** The calls by the ackreq count alone. */
  lemma HooksAt(s: Tx)
    requires ValidConfig(s.cfg)
    ensures s.rest != [] || s.ackreqCount >= s.cfg.numAckreq ==> Hooks(s) == []
    ensures s.rest == [] && s.ackreqCount < s.cfg.numAckreq ==>
              match s.ackreqCount
              case 0 => Hooks(s) == [Begin]
              case 1 => Hooks(s) == []
              case 2 => Hooks(s) == [Channel1(2)]
              case 3 => Hooks(s) == [Channel1(3)]
              case 4 => Hooks(s) == [Channel1(4)]
              case 5 => Hooks(s) == []
              case 6 => Hooks(s) == [Channel2(6)]
              case 7 => Hooks(s) == [Channel2(7)]
              case 8 => Hooks(s) == [Channel2(8)]
              case n => Hooks(s) == if n + 1 == s.cfg.numAckreq then [End] else []
  {
  }

  lemma {:induction false} RunKeepsRest(events: seq<Event>, bytes: seq<Byte>, more: seq<Event>)
    requires Proper(events) && Proper(more) && Owed(events) == []
    requires Crossings(more) < |FrameBits(Told(events).numPreamble, bytes, Told(events).numAckreq)|
    ensures var s := Run(INITIAL, Handed(events, bytes, more));
            var bits := PacketBits(Told(events).numPreamble, bytes);
            && s.cfg == Told(events) && ValidConfig(s.cfg)
            && if Crossings(more) < |bits| then s.rest == bits[Crossings(more)..] && s.ackreqCount == 0
               else s.rest == [] && s.ackreqCount == Crossings(more) - |bits|
    decreases |more|
  {
    TransmitterTellsHistory(events);
    var bits := PacketBits(Told(events).numPreamble, bytes);
    var all := Handed(events, bytes, more);
    if more == [] {
      RunSnoc(INITIAL, events, Asked(Send(bits)));
      assert all == events + [Asked(Send(bits))];
      IdleWhenNothingPending(Run(INITIAL, events));
    } else {
      var front, e := more[..|more| - 1], more[|more| - 1];
      CrossingsSnoc(front, e);
      assert more == front + [e];
      RunKeepsRest(events, bytes, front);
      RunSnoc(INITIAL, Handed(events, bytes, front), e);
      assert all == Handed(events, bytes, front) + [e];
      FrameIsOwed(events, bytes, front);
      ProperHanded(events, bytes, front);
      TransmitterTellsHistory(Handed(events, bytes, front));
    }
  }

  /** Owing nothing it sends a one and calls nobody. */
  lemma {:induction false} IdleCallsNobody(events: seq<Event>)
    requires Proper(events) && Owed(events) == []
    ensures Hooks(Run(INITIAL, events)) == []
    ensures Sent(INITIAL, events + [Crossing]) == Sent(INITIAL, events) + [Meant(One, RateSet(events))]
  {
    TransmitterTellsHistory(events);
    IdleWhenNothingPending(Run(INITIAL, events));
    SentIsPaid(events);
    SentIsPaid(events + [Crossing]);
    assert (events + [Crossing])[..|events|] == events;
  }
}
